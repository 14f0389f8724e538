/** Obfuscated datagrams between a client and a server, whose two directions use different keys. */
module ServerDatagram {
  import opened Words
  import opened KeyStream
  import opened Datagram
  import opened DatagramSocket

  const MAGIC_SERVER: bv32 := 0x13EF_24D5
  const FROM_SERVER: bv8 := 0xA5
  const FROM_CLIENT: bv8 := 0x6B
  const EDONKEY: bv8 := 0x02

  function ServerKey(c: Primitives, baseKey: bv32, direction: bv8, part: Bytes): Bytes {
    c.md5(Word(baseKey) + [direction] + part)
  }

  function ServerContent(padding: Padding, payload: Bytes): Bytes {
    Word(MAGIC_SERVER) + [padding.length] + padding.bytes + payload
  }

  /** The datagrams of the format, in either direction. */
  function ServerPacket(c: Primitives, baseKey: bv32, direction: bv8, first: bv8, part: Bytes, padding: Padding, payload: Bytes): Bytes {
    [first] + part + Crypt(c.stream, ServerKey(c, baseKey, direction, part), 0, ServerContent(padding, payload))
  }

  /** The length of the padding is in the low four bits. */
  predicate Padded(padding: Padding) {
    |padding.bytes| == Size(padding.length & 15)
  }

  function ServerMarker(draws: Bytes): bv8 {
    if draws == [] then 0x01 else if draws[0] == EDONKEY then ServerMarker(draws[1..]) else draws[0]
  }

  function OpenServer(c: Primitives, key: Bytes, packet: Bytes): Option<Bytes>
    requires |packet| > HEADER
  {
    if WordAt(Crypt(c.stream, key, 0, packet[3..7])) != MAGIC_SERVER then None
    else
      var pad := Size(Crypt(c.stream, key, 4, packet[7..HEADER])[0] & 15);
      if |packet| - HEADER <= pad then None else Some(Crypt(c.stream, key, 5 + pad, packet[HEADER + pad..]))
  }

  /** The payload, or None when the packet is passed through. */
  function DecryptServer(c: Primitives, enabled: bool, baseKey: bv32, packet: Bytes): Option<Bytes> {
    if |packet| <= HEADER || !enabled || baseKey == 0 || packet[0] == EDONKEY then None
    else OpenServer(c, ServerKey(c, baseKey, FROM_SERVER, packet[1..3]), packet)
  }

  /** The two directions, byte by byte: the magic value, the padding and its length, the payload, under a key that tells the
      direction, 0x6B from the client and 0xA5 from the server. */
  lemma FormatOfServer(c: Primitives, baseKey: bv32, first: bv8, part: Bytes, padding: Padding, payload: Bytes)
    requires |part| == 2
    ensures var body := [0xD5, 0x24, 0xEF, 0x13, padding.length] + padding.bytes + payload;
            && ServerPacket(c, baseKey, FROM_CLIENT, first, part, padding, payload)
               == [first] + part + Crypt(c.stream, c.md5(Word(baseKey) + [0x6B] + part), 0, body)
            && ServerPacket(c, baseKey, FROM_SERVER, first, part, padding, payload)
               == [first] + part + Crypt(c.stream, c.md5(Word(baseKey) + [0xA5] + part), 0, body)
  {
    assert Word(0x13EF_24D5) == [0xD5, 0x24, 0xEF, 0x13];
    hide Word;
    assert ServerContent(padding, payload) == [0xD5, 0x24, 0xEF, 0x13, padding.length] + padding.bytes + payload;
    hide Crypt, ServerContent;
  }

  /** The marker is the first draw that is not the protocol byte 2; 1 without one. */
  lemma {:induction false} ServerMarkerIsFirst(draws: Bytes, n: nat)
    requires n <= |draws| && forall i :: 0 <= i < n ==> draws[i] == 0x02
    ensures n == |draws| ==> ServerMarker(draws) == 0x01
    ensures n < |draws| && draws[n] != 0x02 ==> ServerMarker(draws) == draws[n]
    decreases n
  {
    if n > 0 {
      assert forall i :: 0 <= i < n - 1 ==> draws[1..][i] == draws[i + 1];
      ServerMarkerIsFirst(draws[1..], n - 1);
    }
  }

  /** What is not looked at: short packets, without the setting or a key, and the protocol byte 2. */
  lemma ServerPassesThrough(c: Primitives, enabled: bool, baseKey: bv32, packet: Bytes)
    requires |packet| <= 8 || !enabled || baseKey == 0 || packet[0] == 0x02
    ensures DecryptServer(c, enabled, baseKey, packet).None?
  {
  }

  lemma {:induction false} ServerMarkerIsNoProtocol(draws: Bytes)
    ensures ServerMarker(draws) != EDONKEY
  {
    if draws != [] {
      ServerMarkerIsNoProtocol(draws[1..]);
    }
  }

  lemma ServerContentParts(padding: Padding, payload: Bytes)
    ensures var content := ServerContent(padding, payload);
            && |content| == 5 + |padding.bytes| + |payload|
            && content[0..4] == Word(MAGIC_SERVER) && content[4] == padding.length
            && content[5 + |padding.bytes|..] == payload
  {
    hide Word;
  }

  lemma ServerPacketShape(c: Primitives, baseKey: bv32, direction: bv8, first: bv8, part: Bytes, padding: Padding, payload: Bytes)
    requires |part| == 2
    ensures var p := ServerPacket(c, baseKey, direction, first, part, padding, payload);
            && |p| == 3 + |ServerContent(padding, payload)| && p[0] == first && p[1..3] == part
            && p[3..] == Crypt(c.stream, ServerKey(c, baseKey, direction, part), 0, ServerContent(padding, payload))
  {
    hide Crypt, Word, ServerKey, ServerContent;
  }

  lemma OpenOfServer(c: Primitives, key: Bytes, packet: Bytes, padding: Padding, payload: Bytes)
    requires Padded(padding) && |packet| > HEADER && |packet| == 3 + |ServerContent(padding, payload)|
    requires packet[3..] == Crypt(c.stream, key, 0, ServerContent(padding, payload))
    ensures OpenServer(c, key, packet) == if payload == [] then None else Some(payload)
  {
    var content, n := ServerContent(padding, payload), |padding.bytes|;
    ServerContentParts(padding, payload);
    WordOfWord(MAGIC_SERVER);
    hide Crypt, Word, WordAt, ServerContent, Size;
    PieceDecrypts(c, key, packet, content, 0, 4);
    PadByteDecrypts(c, key, packet, content);
    var lo := 5 + n;
    TailDecrypts(c, key, packet, content, lo);
    assert 3 + lo == HEADER + n;
  }

  /** A server's datagram opens to its payload if and only if that is not empty and the first byte is no protocol byte. */
  lemma DecryptsWhatTheServerSent(c: Primitives, baseKey: bv32, first: bv8, part: Bytes, padding: Padding, payload: Bytes)
    requires |part| == 2 && Padded(padding) && baseKey != 0
    ensures DecryptServer(c, true, baseKey, ServerPacket(c, baseKey, FROM_SERVER, first, part, padding, payload)) == Some(payload)
      <==> payload != [] && first != EDONKEY
  {
    var p := ServerPacket(c, baseKey, FROM_SERVER, first, part, padding, payload);
    ServerPacketShape(c, baseKey, FROM_SERVER, first, part, padding, payload);
    ServerContentParts(padding, payload);
    hide ServerPacket, OpenServer, ServerContent, Word, Crypt, ServerKey;
    if |p| > HEADER {
      OpenOfServer(c, ServerKey(c, baseKey, FROM_SERVER, part), p, padding, payload);
    }
  }

  // ---- in place ----------------------------------------------------------------------

  method ChooseServerMarker(draws: Bytes) returns (marker: bv8)
    requires |draws| == 128
    ensures marker == ServerMarker(draws)
  {
    var i := 0;
    assert draws[0..] == draws;
    while i < DRAWS
      invariant 0 <= i <= DRAWS && ServerMarker(draws) == ServerMarker(draws[i..])
    {
      marker := draws[i];
      if marker != EDONKEY {
        return;
      }
      assert draws[i..][1..] == draws[i + 1..];
      i := i + 1;
    }
    marker := 0x01;
  }

  /** Sends the format of the other direction, never padded, and never under a protocol byte. */
  method EncryptSendServer(c: Primitives, baseKey: bv32, draws: Bytes, part: Bytes, buf: array<bv8>) returns (out: array<bv8>)
    requires |part| == 2 && |draws| == 128
    ensures fresh(out)
    ensures out[..] == ServerPacket(c, baseKey, FROM_CLIENT, ServerMarker(draws), part, NO_PADDING, buf[..])
  {
    hide Crypt, Word, ServerMarker;
    var sendbuffer := new CryptBuffer(c.stream);
    sendbuffer.SetKey(ServerKey(c, baseKey, FROM_CLIENT, part));
    hide ServerKey;
    var marker := ChooseServerMarker(draws);
    out := new bv8[HEADER + buf.Length];
    out[0], out[1], out[2] := marker, part[0], part[1];
    ghost var head := [marker] + part;
    assert out[..3 + 0] == head + Crypt(sendbuffer.stream, sendbuffer.key, 0, []);
    AppendWord(sendbuffer, MAGIC_SERVER, out, head, []);
    var padLen := new bv8[1](_ => 0);
    assert padLen[..] == [0] && [] + Word(MAGIC_SERVER) == Word(MAGIC_SERVER);
    DatagramSocket.Append(sendbuffer, padLen, out, head, Word(MAGIC_SERVER));
    DatagramSocket.Append(sendbuffer, buf, out, head, Word(MAGIC_SERVER) + [0]);
    assert out[..out.Length] == out[..];
    assert Word(MAGIC_SERVER) + [0] + buf[..] == ServerContent(NO_PADDING, buf[..]) by {
      assert Word(MAGIC_SERVER) + [0] + [] == Word(MAGIC_SERVER) + [0];
    }
  }

  /** The payload in place at `offset`, or the untouched packet. */
  method DecryptReceivedServer(c: Primitives, enabled: bool, baseKey: bv32, buf: array<bv8>) returns (result: nat, offset: nat)
    modifies buf
    ensures offset + result == buf.Length && buf[..offset] == old(buf[..offset])
    ensures match DecryptServer(c, enabled, baseKey, old(buf[..]))
            case None => offset == 0 && buf[..] == old(buf[..])
            case Some(payload) => buf[offset..] == payload
  {
    result, offset := buf.Length, 0;
    if buf.Length <= HEADER || !enabled || baseKey == 0 || buf[0] == EDONKEY {
      return;
    }
    hide Crypt, WordAt, ServerKey, Size;
    ghost var packet := buf[..];
    assert buf[1..3] == packet[1..3];
    var receivebuffer := new CryptBuffer(c.stream);
    receivebuffer.SetKey(ServerKey(c, baseKey, FROM_SERVER, buf[1..3]));
    assert buf[3..3 + 4] == packet[3..7];
    var value := ReadWord(receivebuffer, buf, 3);
    if value != MAGIC_SERVER {
      return;
    }
    var padByte := ReadByte(receivebuffer, buf, 7);
    var padLen := Size(padByte & 15);
    if buf.Length - HEADER <= padLen {
      return;
    }
    receivebuffer.Skip(padLen);
    offset := HEADER + padLen;
    result := buf.Length - offset;
    assert buf[offset..] == packet[offset..];
    DecryptTail(receivebuffer, buf, offset);
  }
}
