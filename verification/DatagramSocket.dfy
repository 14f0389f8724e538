/** CEncryptedDatagramSocket: the buffers that are filled and decrypted in place. */
module DatagramSocket {
  import opened Words
  import opened KeyStream
  import opened Datagram

  /** The loop over random markers; the last one stands in when all fail. */
  method ChooseMarker(kind: Kind, draws: Bytes) returns (marker: bv8)
    requires |draws| == 128
    ensures marker == FirstByte(kind, draws)
  {
    hide Plain, Marked;
    var i := 0;
    while i < DRAWS
      invariant 0 <= i <= DRAWS && Marker(kind, draws) == Marker(kind, draws[i..])
    {
      marker := Marked(kind, draws[i]);
      if !Plain(marker) {
        return;
      }
      assert draws[i..][1..] == draws[i + 1..];
      i := i + 1;
    }
    marker := 0x01;
  }

  /** Encrypts `src` behind what the datagram already holds. */
  method Append(sendbuffer: CryptBuffer, src: array<bv8>, dst: array<bv8>, ghost head: Bytes, ghost done: Bytes)
    requires sendbuffer.hasKey && sendbuffer.used == |done| && |head| == 3 && src != dst
    requires 3 + |done| + src.Length <= dst.Length
    requires dst[..3 + |done|] == head + Crypt(sendbuffer.stream, sendbuffer.key, 0, done)
    modifies sendbuffer`used, dst
    ensures sendbuffer.used == |done + src[..]|
    ensures dst[..3 + |done| + src.Length]
         == head + Crypt(sendbuffer.stream, sendbuffer.key, 0, done + src[..])
  {
    ghost var at, was := 3 + |done|, dst[..];
    assert src[0..src.Length] == src[..];
    CryptConcat(sendbuffer.stream, sendbuffer.key, 0, done, src[..]);
    hide Crypt;
    sendbuffer.RC4Crypt(src, 0, dst, 3 + sendbuffer.used, src.Length);
    assert dst[..at + src.Length] == was[..at] + Crypt(sendbuffer.stream, sendbuffer.key, |done|, src[..]);
  }

  method AppendWord(sendbuffer: CryptBuffer, n: bv32, dst: array<bv8>, ghost head: Bytes, ghost done: Bytes)
    requires sendbuffer.hasKey && sendbuffer.used == |done| && |head| == 3
    requires 3 + |done| + 4 <= dst.Length
    requires dst[..3 + |done|] == head + Crypt(sendbuffer.stream, sendbuffer.key, 0, done)
    modifies sendbuffer`used, dst
    ensures sendbuffer.used == |done + Word(n)|
    ensures dst[..3 + |done| + 4]
         == head + Crypt(sendbuffer.stream, sendbuffer.key, 0, done + Word(n))
  {
    hide Crypt, Word;
    var word := new bv8[4](i requires 0 <= i < 4 => Word(n)[i]);
    assert word[..] == Word(n);
    Append(sendbuffer, word, dst, head, done);
  }

  /** The encrypted part of a datagram: magic value, padding length, for Kad the verify keys, payload. */
  method FillDatagram(sendbuffer: CryptBuffer, t: Target, buf: array<bv8>, dst: array<bv8>)
    requires sendbuffer.hasKey && sendbuffer.used == 0 && buf != dst
    requires dst.Length == HEADER + |VerifyKeys(t)| + buf.Length
    modifies sendbuffer`used, dst
    ensures dst[..] == old(dst[..3]) + Crypt(sendbuffer.stream, sendbuffer.key, 0, Content(t, NO_PADDING, buf[..]))
  {
    ghost var head := dst[..3];
    assert dst[..3 + 0] == head + Crypt(sendbuffer.stream, sendbuffer.key, 0, []);
    assert |VerifyKeys(t)| == if t.kad then 8 else 0;
    hide Crypt, Word;
    AppendWord(sendbuffer, MAGIC, dst, head, []);
    var padLen := new bv8[1](_ => 0);
    assert padLen[..] == [0] && [] + Word(MAGIC) == Word(MAGIC);
    Append(sendbuffer, padLen, dst, head, Word(MAGIC));
    ghost var done := Word(MAGIC) + [0];
    if t.kad {
      AppendWord(sendbuffer, t.receiverKey, dst, head, done);
      AppendWord(sendbuffer, t.senderKey, dst, head, done + Word(t.receiverKey));
      assert done + Word(t.receiverKey) + Word(t.senderKey) == done + VerifyKeys(t);
    } else {
      assert done + VerifyKeys(t) == done;
    }
    Append(sendbuffer, buf, dst, head, done + VerifyKeys(t));
    assert dst[..dst.Length] == dst[..];
    assert done + VerifyKeys(t) + buf[..] == Content(t, NO_PADDING, buf[..]) by {
      assert Word(MAGIC) + [0] + [] == done;
    }
  }

  /** Returns the datagram to send: a new buffer, or the given one when there is no key. */
  method EncryptSendClient(c: Primitives, t: Target, draws: Bytes, part: Bytes, buf: array<bv8>)
    returns (out: array<bv8>)
    requires t.Valid() && |part| == 2 && |draws| == 128
    ensures out[..] == Encrypt(c, t, draws, part, buf[..])
    ensures if t.Kind().Some? then fresh(out) else out == buf
  {
    if t.Kind().None? {
      return buf;
    }
    hide Crypt, Word, SendKeyData, FirstByte;
    var kind := t.Kind().value;
    var sendbuffer := new CryptBuffer(c.stream);
    sendbuffer.SetKey(c.md5(SendKeyData(t, kind, part)));
    var marker := ChooseMarker(kind, draws);
    out := new bv8[HEADER + (if t.kad then 8 else 0) + buf.Length];
    out[0], out[1], out[2] := marker, part[0], part[1];
    assert out[..3] == [marker] + part;
    FillDatagram(sendbuffer, t, buf, out);
  }

  /** The loop over the candidate keys; on success the cipher stands behind the magic value. */
  method FindKey(c: Primitives, r: Receiver, buf: array<bv8>) returns (receivebuffer: CryptBuffer, found: Option<Kind>)
    requires buf.Length > HEADER
    ensures fresh(receivebuffer) && receivebuffer.stream == c.stream
    ensures found == Find(c, r, buf[..], Start(r, buf[..]), Tries(r))
    ensures found.Some? ==> receivebuffer.hasKey && receivebuffer.used == 4
                            && receivebuffer.key == ReceiveKey(c, r, found.value, buf[..])
  {
    ghost var packet := buf[..];
    receivebuffer := new CryptBuffer(c.stream);
    var tries := Tries(r);
    var currentTry: Kind := if r.kad then FirstTry(buf[0]) else ED2K;
    var value := new bv8[4];
    found := None;
    hide Crypt, FirstTry, WordAt, ReceiveKeyData;
    while found.None? && tries > 0
      invariant fresh(receivebuffer) && receivebuffer.stream == c.stream && fresh(value) && value.Length == 4
      invariant found.None? ==> Find(c, r, packet, Start(r, packet), Tries(r)) == Find(c, r, packet, currentTry, tries)
      invariant found.Some? ==> found == Find(c, r, packet, Start(r, packet), Tries(r))
      invariant found.Some? ==> receivebuffer.hasKey && receivebuffer.used == 4
                                && receivebuffer.key == ReceiveKey(c, r, found.value, packet)
      invariant buf[..] == packet
      decreases tries, found.None?
    {
      var opens := TryKey(c, r, currentTry, buf, receivebuffer, value);
      if opens {
        found := Some(currentTry);
      }
      tries, currentTry := tries - 1, NextTry(currentTry);
    }
  }

  /** Decrypts a piece of the packet into a variable of its own. */
  method DecryptAside(receivebuffer: CryptBuffer, buf: array<bv8>, from: nat, value: array<bv8>)
    requires receivebuffer.hasKey && from + value.Length <= buf.Length && value != buf
    modifies receivebuffer`used, value
    ensures receivebuffer.used == old(receivebuffer.used) + value.Length
    ensures value[..] == Crypt(receivebuffer.stream, receivebuffer.key, old(receivebuffer.used),
                               buf[from..from + value.Length])
  {
    hide Crypt, Spliced;
    ghost var was := value[..];
    receivebuffer.RC4Crypt(buf, from, value, 0, value.Length);
    SplicedWhole(was, Crypt(receivebuffer.stream, receivebuffer.key, old(receivebuffer.used),
                            old(buf[from..from + value.Length])));
  }

  /** One round: a fresh key stream, and the four bytes of the magic value decrypted aside. */
  method TryKey(c: Primitives, r: Receiver, kind: Kind, buf: array<bv8>, receivebuffer: CryptBuffer, value: array<bv8>)
    returns (opens: bool)
    requires buf.Length > HEADER && value.Length == 4 && value != buf && receivebuffer.stream == c.stream
    modifies receivebuffer, value
    ensures opens == Opens(c, r, buf[..], kind)
    ensures receivebuffer.hasKey && receivebuffer.used == 4
    ensures receivebuffer.key == ReceiveKey(c, r, kind, buf[..])
  {
    hide Crypt, ReceiveKeyData, WordAt;
    receivebuffer.FullReset();
    receivebuffer.SetKey(c.md5(ReceiveKeyData(r, kind, buf[1..3])));
    assert buf[1..3] == buf[..][1..3];
    DecryptAside(receivebuffer, buf, 3, value);
    assert buf[3..3 + 4] == buf[..][3..7];
    opens := WordAt(value[..]) == MAGIC;
  }

  /** Decrypts a piece into a number. */
  method ReadWord(receivebuffer: CryptBuffer, buf: array<bv8>, from: nat) returns (n: bv32)
    requires receivebuffer.hasKey && from + 4 <= buf.Length
    modifies receivebuffer`used
    ensures receivebuffer.used == old(receivebuffer.used) + 4
    ensures n == WordAt(Crypt(receivebuffer.stream, receivebuffer.key, old(receivebuffer.used), buf[from..from + 4]))
  {
    hide Crypt, WordAt;
    var word := new bv8[4];
    DecryptAside(receivebuffer, buf, from, word);
    n := WordAt(word[..]);
  }

  method ReadByte(receivebuffer: CryptBuffer, buf: array<bv8>, from: nat) returns (b: bv8)
    requires receivebuffer.hasKey && from < buf.Length
    modifies receivebuffer`used
    ensures receivebuffer.used == old(receivebuffer.used) + 1
    ensures b == Crypt(receivebuffer.stream, receivebuffer.key, old(receivebuffer.used), buf[..][from..from + 1])[0]
  {
    hide Crypt;
    assert buf[..][from..from + 1] == buf[from..from + 1];
    var one := new bv8[1];
    DecryptAside(receivebuffer, buf, from, one);
    b := one[0];
    assert b == one[..][0];
  }

  /** What DecryptReceivedClient leaves behind: the payload in place at `offset`, or the untouched packet. */
  ghost predicate Delivered(outcome: Outcome, was: Bytes, buf: Bytes, result: nat, offset: nat, rk: bv32, sk: bv32)
  {
    && |buf| == |was| == offset + result
    && buf[..offset] == was[..offset]
    && match outcome
       case PassedThrough => offset == 0 && buf == was && rk == 0 && sk == 0
       case Opened(payload, receiverKey, senderKey) => buf[offset..] == payload && rk == receiverKey && sk == senderKey
  }

  method DecryptTail(receivebuffer: CryptBuffer, buf: array<bv8>, offset: nat)
    requires receivebuffer.hasKey && offset <= buf.Length
    modifies receivebuffer`used, buf
    ensures buf[..offset] == old(buf[..offset])
    ensures buf[offset..] == Crypt(receivebuffer.stream, receivebuffer.key, old(receivebuffer.used), old(buf[offset..]))
  {
    assert buf[offset..offset + (buf.Length - offset)] == buf[offset..];
    hide Crypt;
    receivebuffer.RC4Crypt(buf, offset, buf, offset, buf.Length - offset);
  }

  /** The verify keys and the payload decrypt piece by piece. */
  lemma KadPieces(stream: Stream, key: Bytes, at: nat, packet: Bytes, start: nat)
    requires start + 8 <= |packet|
    ensures var rest := Crypt(stream, key, at, packet[start..]);
            && rest[..4] == Crypt(stream, key, at, packet[start..start + 4])
            && rest[4..8] == Crypt(stream, key, at + 4, packet[start + 4..start + 8])
            && rest[8..] == Crypt(stream, key, at + 8, packet[start + 8..])
  {
    var tail := packet[start..];
    CryptOfSlice(stream, key, at, tail, 0, 4);
    CryptOfSlice(stream, key, at, tail, 4, 8);
    CryptOfSlice(stream, key, at, tail, 8, |tail|);
    hide Crypt;
    assert tail[0..4] == packet[start..start + 4];
    assert tail[4..8] == packet[start + 4..start + 8];
    assert tail[8..|tail|] == packet[start + 8..];
  }

  /** The verify keys of a Kad packet, if it is long enough to hold them. */
  method OpenKadPacket(receivebuffer: CryptBuffer, buf: array<bv8>, start: nat)
    returns (result: nat, offset: nat, receiverVerifyKey: bv32, senderVerifyKey: bv32)
    requires start < buf.Length && receivebuffer.hasKey
    modifies receivebuffer`used, buf
    ensures Delivered(OpenKad(Crypt(receivebuffer.stream, receivebuffer.key, old(receivebuffer.used), old(buf[start..]))),
                      old(buf[..]), buf[..], result, offset, receiverVerifyKey, senderVerifyKey)
  {
    result, offset, receiverVerifyKey, senderVerifyKey := buf.Length, 0, 0, 0;
    if buf.Length - start <= 8 {
      return;
    }
    hide Crypt, WordAt;
    ghost var packet := buf[..];
    KadPieces(receivebuffer.stream, receivebuffer.key, receivebuffer.used, packet, start);
    assert buf[start..] == packet[start..] && buf[start + 8..] == packet[start + 8..];
    assert buf[start..start + 4] == packet[start..start + 4];
    assert buf[start + 4..start + 4 + 4] == packet[start + 4..start + 8];
    receiverVerifyKey := ReadWord(receivebuffer, buf, start);
    senderVerifyKey := ReadWord(receivebuffer, buf, start + 4);
    offset := start + 8;
    result := buf.Length - offset;
    DecryptTail(receivebuffer, buf, offset);
  }

  method OpenPacket(receivebuffer: CryptBuffer, kad: bool, buf: array<bv8>)
    returns (result: nat, offset: nat, receiverVerifyKey: bv32, senderVerifyKey: bv32)
    requires buf.Length > HEADER && receivebuffer.hasKey && receivebuffer.used == 4
    modifies receivebuffer`used, buf
    ensures Delivered(Open(receivebuffer.stream, receivebuffer.key, kad, old(buf[..])), old(buf[..]),
                      buf[..], result, offset, receiverVerifyKey, senderVerifyKey)
  {
    hide Crypt, OpenKad, Size;
    result, offset, receiverVerifyKey, senderVerifyKey := buf.Length, 0, 0, 0;
    ghost var packet := buf[..];
    var padByte := ReadByte(receivebuffer, buf, 7);
    var padLen := Size(padByte);
    if buf.Length - HEADER <= padLen {
      return;
    }
    receivebuffer.Skip(padLen);
    assert buf[HEADER + padLen..] == packet[HEADER + padLen..];
    if kad {
      result, offset, receiverVerifyKey, senderVerifyKey := OpenKadPacket(receivebuffer, buf, HEADER + padLen);
    } else {
      offset := HEADER + padLen;
      result := buf.Length - offset;
      DecryptTail(receivebuffer, buf, offset);
    }
  }

  method DecryptReceivedClient(c: Primitives, r: Receiver, buf: array<bv8>)
    returns (result: nat, offset: nat, receiverVerifyKey: bv32, senderVerifyKey: bv32)
    modifies buf
    ensures Delivered(Decrypt(c, r, old(buf[..])), old(buf[..]), buf[..], result, offset, receiverVerifyKey, senderVerifyKey)
    ensures Decrypt(c, r, old(buf[..])) == PassedThrough ==>
              result == buf.Length && offset == 0 && receiverVerifyKey == senderVerifyKey == 0 && buf[..] == old(buf[..])
    ensures Decrypt(c, r, old(buf[..])).Opened? ==>
              && offset + result == buf.Length
              && Decrypt(c, r, old(buf[..])) == Opened(buf[offset..], receiverVerifyKey, senderVerifyKey)
  {
    result, offset, receiverVerifyKey, senderVerifyKey := buf.Length, 0, 0, 0;
    if buf.Length <= HEADER || Plain(buf[0]) {
      return;
    }
    var receivebuffer, found := FindKey(c, r, buf);
    if found.Some? {
      result, offset, receiverVerifyKey, senderVerifyKey := OpenPacket(receivebuffer, found.value != ED2K, buf);
    }
  }
}
