/** Obfuscated client datagrams: what EncryptSendClient sends and DecryptReceivedClient makes of it. */
module Datagram {
  import opened Words
  import opened KeyStream

  const HEADER := 8
  const MARK: bv8 := 91
  const MAGIC: bv32 := 0x395F_2EC1
  const DRAWS := 128

  /** The 16-byte digest and the stream cipher. */
  datatype Primitives = Primitives(md5: Bytes -> Bytes, stream: Stream)

  /** The kinds of key, numbered as the receiver tries them. */
  type Kind = k: nat | k < 3
  const NODE_ID: Kind := 0
  const ED2K: Kind := 1
  const RECEIVER_KEY: Kind := 2

  /** PokeUInt32. */
  function Word(n: bv32): (b: Bytes)
    ensures |b| == 4
  {
    [(n & 0xFF) as bv8, ((n >> 8) & 0xFF) as bv8, ((n >> 16) & 0xFF) as bv8, ((n >> 24) & 0xFF) as bv8]
  }

  /** Reading a 32-bit number back from memory. */
  function WordAt(b: Bytes): bv32
    requires |b| == 4
  {
    (b[0] as bv32) | (b[1] as bv32 << 8) | (b[2] as bv32 << 16) | (b[3] as bv32 << 24)
  }

  lemma WordOfWord(n: bv32)
    ensures WordAt(Word(n)) == n
  {
  }

  /** The first bytes of unencrypted protocols. */
  predicate Plain(b: bv8) {
    b == 0x03 || b == 0x04 || b == 0x05 || b == 0x06 || b == 0xA3 || b == 0xB2
  }

  // ---- sending -------------------------------------------------------------

  /** The arguments of EncryptSendClient; `publicHash` is the hash code of our own destination. */
  datatype Target = Target(kad: bool, hash: Option<Bytes>, receiverKey: bv32, senderKey: bv32, publicHash: bv32)
  {
    /** An ed2k packet is for a client whose user hash is known. */
    predicate Valid() {
      kad || hash.Some?
    }

    predicate HasHash() {
      hash.Some? && exists i :: 0 <= i < |hash.value| && hash.value[i] != 0
    }

    function Kind(): Option<Kind> {
      if !kad then Some(ED2K)
      else if HasHash() then Some(NODE_ID)
      else if receiverKey != 0 then Some(RECEIVER_KEY)
      else None
    }
  }

  function SendKeyData(t: Target, kind: Kind, part: Bytes): Bytes
    requires t.Valid() && t.Kind() == Some(kind)
  {
    if kind == NODE_ID then t.hash.value + part
    else if kind == ED2K then t.hash.value + Word(t.publicHash) + [MARK] + part
    else Word(t.receiverKey) + part
  }

  /** A random byte with the marker bits of a kind of key. */
  function Marked(kind: Kind, draw: bv8): bv8 {
    if kind == NODE_ID then draw & 0xFC
    else if kind == ED2K then draw | 0x01
    else (draw & 0xFE) | 0x02
  }

  /** The first usable marker among the draws, if any. */
  function Marker(kind: Kind, draws: Bytes): Option<bv8> {
    if draws == [] then None
    else if Plain(Marked(kind, draws[0])) then Marker(kind, draws[1..])
    else Some(Marked(kind, draws[0]))
  }

  function FirstByte(kind: Kind, draws: Bytes): bv8 {
    match Marker(kind, draws)
    case Some(m) => m
    case None => 0x01
  }

  function VerifyKeys(t: Target): Bytes {
    if t.kad then Word(t.receiverKey) + Word(t.senderKey) else []
  }

  /** A byte read as a number. */
  function Size(b: bv8): nat {
    b as nat
  }

  /** Padding, and the byte that tells its length. */
  datatype Padding = Padding(length: bv8, bytes: Bytes)
  {
    predicate Valid() {
      |bytes| == Size(length)
    }
  }

  const NO_PADDING := Padding(0, [])

  /** What is encrypted: the magic value, the padding and its length, for Kad the verify keys, the payload. */
  function Content(t: Target, padding: Padding, payload: Bytes): Bytes {
    Word(MAGIC) + [padding.length] + padding.bytes + VerifyKeys(t) + payload
  }

  function KeyOf(c: Primitives, t: Target, kind: Kind, part: Bytes): Bytes
    requires t.Valid() && t.Kind() == Some(kind)
  {
    c.md5(SendKeyData(t, kind, part))
  }

  /** The datagrams of the format; only the first three bytes are not encrypted. */
  function Packet(c: Primitives, t: Target, kind: Kind, first: bv8, part: Bytes, padding: Padding, payload: Bytes): Bytes
    requires t.Valid() && t.Kind() == Some(kind)
  {
    [first] + part + Crypt(c.stream, KeyOf(c, t, kind, part), 0, Content(t, padding, payload))
  }

  /** What EncryptSendClient sends: it never pads. */
  function Encrypt(c: Primitives, t: Target, draws: Bytes, part: Bytes, payload: Bytes): Bytes
    requires t.Valid()
  {
    match t.Kind()
    case None => payload
    case Some(kind) => Packet(c, t, kind, FirstByte(kind, draws), part, NO_PADDING, payload)
  }

  /** The bytes of a number on the wire, the lowest first, and reading them back. */
  lemma WordIsLittleEndian(a: bv8, b: bv8, c: bv8, d: bv8)
    ensures WordAt([a, b, c, d]) & 0xFF == a as bv32 && (WordAt([a, b, c, d]) >> 24) & 0xFF == d as bv32
    ensures Word(WordAt([a, b, c, d])) == [a, b, c, d]
  {
  }

  /** Protocol bytes that are never taken for a marker. */
  lemma PlainTells(b: bv8)
    ensures Plain(b) <==> b in {0x03, 0x04, 0x05, 0x06, 0xA3, 0xB2}
  {
  }

  /** A marker keeps the six upper bits of its draw; the two lower ones are 0 for a node ID, 2 for a receiver key and 1 or 3
      for ed2k. */
  lemma MarkedKeeps(kind: Kind, draw: bv8)
    ensures Marked(kind, draw) & 0xFC == draw & 0xFC
    ensures kind == NODE_ID ==> Marked(kind, draw) & 0x03 == 0
    ensures kind == RECEIVER_KEY ==> Marked(kind, draw) & 0x03 == 2
    ensures kind == ED2K ==> Marked(kind, draw) & 0x02 == draw & 0x02 && Marked(kind, draw) & 0x01 == 1
  {
  }

  /** The marker is that of the first draw that does not give a protocol byte; 1 without one. */
  lemma {:induction false} MarkerIsFirst(kind: Kind, draws: Bytes, n: nat)
    requires n <= |draws| && forall i :: 0 <= i < n ==> Plain(Marked(kind, draws[i]))
    ensures n == |draws| ==> FirstByte(kind, draws) == 0x01
    ensures n < |draws| && !Plain(Marked(kind, draws[n])) ==> FirstByte(kind, draws) == Marked(kind, draws[n])
    decreases n
  {
    hide Plain, Marked;
    if n > 0 {
      assert forall i :: 0 <= i < n - 1 ==> draws[1..][i] == draws[i + 1];
      MarkerIsFirst(kind, draws[1..], n - 1);
    }
  }

  /** The datagram for a client, byte by byte. */
  lemma FormatOfEd2k(c: Primitives, t: Target, draws: Bytes, part: Bytes, payload: Bytes)
    requires t.Valid() && !t.kad && |part| == 2
    ensures var key := c.md5(t.hash.value + Word(t.publicHash) + [0x5B] + part);
            Encrypt(c, t, draws, part, payload)
            == [FirstByte(1, draws)] + part + Crypt(c.stream, key, 0, [0xC1, 0x2E, 0x5F, 0x39, 0] + payload)
  {
    assert Word(0x395F_2EC1) == [0xC1, 0x2E, 0x5F, 0x39];
    assert Content(t, NO_PADDING, payload) == [0xC1, 0x2E, 0x5F, 0x39, 0] + payload;
    hide Crypt, Word;
  }

  /** The datagram for a Kad node, which carries both verify keys; the key is made of the node's ID if it is known, else of
      the key it gave for receiving. */
  lemma FormatOfKad(c: Primitives, t: Target, draws: Bytes, part: Bytes, payload: Bytes)
    requires t.Valid() && t.kad && |part| == 2
    ensures var known := t.hash.Some? && exists i :: 0 <= i < |t.hash.value| && t.hash.value[i] != 0;
            var body := [0xC1, 0x2E, 0x5F, 0x39, 0] + Word(t.receiverKey) + Word(t.senderKey) + payload;
            Encrypt(c, t, draws, part, payload)
            == if known then [FirstByte(0, draws)] + part + Crypt(c.stream, c.md5(t.hash.value + part), 0, body)
               else if t.receiverKey != 0 then
                 [FirstByte(2, draws)] + part + Crypt(c.stream, c.md5(Word(t.receiverKey) + part), 0, body)
               else payload
  {
    assert Word(0x395F_2EC1) == [0xC1, 0x2E, 0x5F, 0x39];
    hide Word;
    var body := [0xC1, 0x2E, 0x5F, 0x39, 0] + Word(t.receiverKey) + Word(t.senderKey) + payload;
    assert Content(t, NO_PADDING, payload) == body;
    hide Crypt, Content;
  }

  // ---- receiving -----------------------------------------------------------

  /** What the receiver knows: `verifyKey` and `senderHash` belong to the destination the packet came from. */
  datatype Receiver = Receiver(kad: bool, kadId: Bytes, userHash: Bytes, verifyKey: bv32, senderHash: bv32)

  datatype Outcome = PassedThrough | Opened(payload: Bytes, receiverKey: bv32, senderKey: bv32)

  function ReceiveKeyData(r: Receiver, kind: Kind, part: Bytes): Bytes {
    if kind == NODE_ID then r.kadId + part
    else if kind == ED2K then r.userHash + Word(r.senderHash) + [MARK] + part
    else Word(r.verifyKey) + part
  }

  function ReceiveKey(c: Primitives, r: Receiver, kind: Kind, packet: Bytes): Bytes
    requires |packet| > HEADER
  {
    c.md5(ReceiveKeyData(r, kind, packet[1..3]))
  }

  /** The magic value appears under this kind of key. */
  predicate Opens(c: Primitives, r: Receiver, packet: Bytes, kind: Kind)
    requires |packet| > HEADER
  {
    WordAt(Crypt(c.stream, ReceiveKey(c, r, kind, packet), 0, packet[3..7])) == MAGIC
  }

  /** The marker bits: 3 counts as 1. */
  function FirstTry(first: bv8): Kind {
    if first & 0x03 == 0 then NODE_ID else if first & 0x03 == 2 then RECEIVER_KEY else ED2K
  }

  function NextTry(kind: Kind): Kind {
    (kind + 1) % 3
  }

  /** The first kind of key that opens the packet, in the order of trying. */
  function Find(c: Primitives, r: Receiver, packet: Bytes, kind: Kind, tries: nat): Option<Kind>
    requires |packet| > HEADER
    decreases tries
  {
    if tries == 0 then None
    else if Opens(c, r, packet, kind) then Some(kind)
    else Find(c, r, packet, NextTry(kind), tries - 1)
  }

  function Start(r: Receiver, packet: Bytes): Kind
    requires |packet| > HEADER
  {
    if r.kad then FirstTry(packet[0]) else ED2K
  }

  function Tries(r: Receiver): nat {
    if r.kad then 3 else 1
  }

  /** What follows the magic value: padding length, padding, for Kad two verify keys, payload. */
  function Open(stream: Stream, key: Bytes, kad: bool, packet: Bytes): Outcome
    requires |packet| > HEADER
  {
    var pad := Size(Crypt(stream, key, 4, packet[7..HEADER])[0]);
    if |packet| - HEADER <= pad then PassedThrough
    else
      var rest := Crypt(stream, key, 5 + pad, packet[HEADER + pad..]);
      if kad then OpenKad(rest) else Opened(rest, 0, 0)
  }

  function OpenKad(rest: Bytes): Outcome {
    if |rest| <= 8 then PassedThrough else Opened(rest[8..], WordAt(rest[..4]), WordAt(rest[4..8]))
  }

  function Decrypt(c: Primitives, r: Receiver, packet: Bytes): Outcome {
    if |packet| <= HEADER || Plain(packet[0]) then PassedThrough
    else
      match Find(c, r, packet, Start(r, packet), Tries(r))
      case None => PassedThrough
      case Some(kind) => Open(c.stream, ReceiveKey(c, r, kind, packet), kind != ED2K, packet)
  }

  // ---- markers -------------------------------------------------------------

  lemma MarkedTells(kind: Kind, draw: bv8)
    ensures FirstTry(Marked(kind, draw)) == kind
  {
    assert (draw & 0xFC) & 0x03 == 0;
    assert (draw | 0x01) & 0x03 != 0 && (draw | 0x01) & 0x03 != 2;
    assert ((draw & 0xFE) | 0x02) & 0x03 == 2;
  }

  /** Unless every draw fails, the marker is no protocol byte and makes the right key the first one tried. */
  lemma {:induction false} MarkerTells(kind: Kind, draws: Bytes)
    ensures !Plain(FirstByte(kind, draws))
    ensures Marker(kind, draws).Some? ==> FirstTry(FirstByte(kind, draws)) == kind
    ensures Marker(kind, draws).None? <==> forall i :: 0 <= i < |draws| ==> Plain(Marked(kind, draws[i]))
    ensures FirstTry(FirstByte(kind, draws)) == kind <==>
            kind == ED2K || exists i :: 0 <= i < |draws| && !Plain(Marked(kind, draws[i]))
  {
    assert FirstTry(0x01) == ED2K;
    if draws == [] {
    } else if Plain(Marked(kind, draws[0])) {
      MarkerTells(kind, draws[1..]);
      assert forall i :: 0 < i < |draws| ==> draws[i] == draws[1..][i - 1];
    } else {
      MarkedTells(kind, draws[0]);
    }
  }

  /** Each kind of key can run out of draws, and then only an ed2k receiver starts with the right key. */
  lemma FallbackHappens(kind: Kind, draws: Bytes)
    requires |draws| == 128
    requires forall i :: 0 <= i < 128 ==> draws[i] == if kind == NODE_ID then 0x04 else if kind == ED2K then 0x03 else 0x06
    ensures Marker(kind, draws).None?
    ensures FirstTry(FirstByte(kind, draws)) == kind <==> kind == ED2K
  {
    MarkerTells(kind, draws);
    assert Marked(NODE_ID, 0x04) == 0x04 && Marked(ED2K, 0x03) == 0x03 && Marked(RECEIVER_KEY, 0x06) == 0x06;
  }

  // ---- the tries -----------------------------------------------------------

  /** The kind tried n tries later. */
  function After(kind: Kind, n: nat): Kind
    decreases n
  {
    if n == 0 then kind else After(NextTry(kind), n - 1)
  }

  /** How many tries after `from` the key `to` is tried. */
  function Distance(from: Kind, to: Kind): nat {
    if from == to then 0 else if NextTry(from) == to then 1 else 2
  }

  lemma DistanceIsShort(from: Kind, to: Kind)
    ensures Distance(from, to) < 3 && After(from, Distance(from, to)) == to
    ensures Distance(from, to) == 0 <==> from == to
  {
    if from != to && NextTry(from) != to {
      assert After(from, 2) == After(NextTry(from), 1) == NextTry(NextTry(from)) == to;
    }
  }

  /** The key used is the first in the order of trying that opens the packet. */
  lemma {:induction false} FindIsFirst(c: Primitives, r: Receiver, packet: Bytes, kind: Kind, tries: nat, n: nat)
    requires |packet| > HEADER
    requires n < tries && Opens(c, r, packet, After(kind, n))
    requires forall i :: 0 <= i < n ==> !Opens(c, r, packet, After(kind, i))
    ensures Find(c, r, packet, kind, tries) == Some(After(kind, n))
    decreases n
  {
    hide Opens, NextTry;
    if n > 0 {
      var next := NextTry(kind);
      assert !Opens(c, r, packet, After(kind, 0));
      forall i | 0 <= i < n - 1
        ensures !Opens(c, r, packet, After(next, i))
      {
        assert After(kind, i + 1) == After(next, i);
      }
      FindIsFirst(c, r, packet, next, tries - 1, n - 1);
    }
  }

  /** The order of trying: the marker bits name the first kind of key, and the others follow in turn; without Kad only the
      ed2k key is tried. */
  lemma TryingOrder(c: Primitives, r: Receiver, packet: Bytes)
    requires |packet| > HEADER
    ensures var node, ed2k, own := Opens(c, r, packet, 0), Opens(c, r, packet, 1), Opens(c, r, packet, 2);
            var found, low := Find(c, r, packet, Start(r, packet), Tries(r)), packet[0] & 0x03;
            && (!r.kad ==> found == if ed2k then Some(1) else None)
            && (r.kad && low == 0 ==>
                  found == if node then Some(0) else if ed2k then Some(1) else if own then Some(2) else None)
            && (r.kad && (low == 1 || low == 3) ==>
                  found == if ed2k then Some(1) else if own then Some(2) else if node then Some(0) else None)
            && (r.kad && low == 2 ==>
                  found == if own then Some(2) else if node then Some(0) else if ed2k then Some(1) else None)
  {
    hide Opens;
    var kind, tries := Start(r, packet), Tries(r);
    assert Find(c, r, packet, kind, tries)
        == if Opens(c, r, packet, kind) then Some(kind) else Find(c, r, packet, NextTry(kind), tries - 1);
    if tries == 3 {
      var second, third := NextTry(kind), NextTry(NextTry(kind));
      assert Find(c, r, packet, second, 2) == if Opens(c, r, packet, second) then Some(second) else Find(c, r, packet, third, 1);
      assert Find(c, r, packet, third, 1) == if Opens(c, r, packet, third) then Some(third) else None;
    }
  }

  /** Three tries visit all three keys. */
  lemma ThreeTriesVisitAll(c: Primitives, r: Receiver, packet: Bytes, kind: Kind)
    requires |packet| > HEADER
    ensures Find(c, r, packet, kind, 3).None? <==> forall k: Kind :: !Opens(c, r, packet, k)
  {
    hide Opens;
    var second, third := NextTry(kind), NextTry(NextTry(kind));
    assert Find(c, r, packet, kind, 3) == if Opens(c, r, packet, kind) then Some(kind) else Find(c, r, packet, second, 2);
    assert Find(c, r, packet, second, 2) == if Opens(c, r, packet, second) then Some(second) else Find(c, r, packet, third, 1);
    assert Find(c, r, packet, third, 1) == if Opens(c, r, packet, third) then Some(third) else None;
    forall k: Kind
      ensures Opens(c, r, packet, k) ==> k == kind || k == second || k == third
    {
    }
  }

  /** A packet that starts with a plain protocol byte, or is too short, passes through; so does one no key opens. */
  lemma PassesThrough(c: Primitives, r: Receiver, packet: Bytes)
    requires |packet| > HEADER ==> Plain(packet[0]) || forall k: Kind :: (r.kad || k == ED2K) ==> !Opens(c, r, packet, k)
    ensures Decrypt(c, r, packet) == PassedThrough
  {
    hide Opens, Open, Plain;
    if |packet| > HEADER && !Plain(packet[0]) {
      if r.kad {
        ThreeTriesVisitAll(c, r, packet, Start(r, packet));
      } else {
        assert !Opens(c, r, packet, ED2K);
        assert Find(c, r, packet, ED2K, 1).None?;
      }
    }
  }

  /** Nothing is ever opened to an empty payload. */
  lemma OpenedIsNotEmpty(c: Primitives, r: Receiver, packet: Bytes)
    requires Decrypt(c, r, packet).Opened?
    ensures 0 < |Decrypt(c, r, packet).payload| <= |packet| - HEADER
  {
    hide Opens, Find, Plain, WordAt, ReceiveKeyData;
  }

  // ---- the round trip ------------------------------------------------------

  /** The receiver is the one the packet was encrypted for. */
  predicate Meant(t: Target, r: Receiver, kind: Kind)
    requires t.Valid() && t.Kind() == Some(kind)
  {
    && (kind == NODE_ID ==> r.kad && t.hash == Some(r.kadId))
    && (kind == ED2K ==> t.hash == Some(r.userHash) && t.publicHash == r.senderHash)
    && (kind == RECEIVER_KEY ==> r.kad && t.receiverKey == r.verifyKey)
  }

  lemma PacketShape(c: Primitives, t: Target, kind: Kind, first: bv8, part: Bytes, padding: Padding, payload: Bytes)
    requires t.Valid() && t.Kind() == Some(kind) && |part| == 2
    ensures var p := Packet(c, t, kind, first, part, padding, payload);
            && |p| == HEADER + |padding.bytes| + |VerifyKeys(t)| + |payload| && p[0] == first && p[1..3] == part
            && p[3..] == Crypt(c.stream, KeyOf(c, t, kind, part), 0, Content(t, padding, payload))
  {
    hide Crypt, Word, SendKeyData, VerifyKeys;
  }

  lemma SliceOfTail(b: Bytes, n: nat, lo: nat, hi: nat)
    requires lo <= hi && n + hi <= |b|
    ensures b[n + lo..n + hi] == b[n..][lo..hi]
  {
  }

  /** Decrypting any part of the packet gives that part of the content. */
  lemma PieceDecrypts(c: Primitives, key: Bytes, packet: Bytes, content: Bytes, lo: nat, hi: nat)
    requires |packet| == 3 + |content| && packet[3..] == Crypt(c.stream, key, 0, content)
    requires lo <= hi <= |content|
    ensures Crypt(c.stream, key, lo, packet[3 + lo..3 + hi]) == content[lo..hi]
  {
    var cipher := Crypt(c.stream, key, 0, content);
    CryptTwice(c.stream, key, 0, content);
    CryptOfSlice(c.stream, key, 0, cipher, lo, hi);
    SliceOfTail(packet, 3, lo, hi);
  }

  lemma MeantKeysAgree(c: Primitives, t: Target, r: Receiver, kind: Kind, first: bv8, part: Bytes, padding: Padding, payload: Bytes)
    requires t.Valid() && t.Kind() == Some(kind) && |part| == 2 && Meant(t, r, kind)
    requires |Packet(c, t, kind, first, part, padding, payload)| > HEADER
    ensures ReceiveKey(c, r, kind, Packet(c, t, kind, first, part, padding, payload)) == KeyOf(c, t, kind, part)
  {
    PacketShape(c, t, kind, first, part, padding, payload);
    hide Packet, Word;
  }

  lemma ContentStarts(t: Target, padding: Padding, payload: Bytes)
    ensures |Content(t, padding, payload)| == 5 + |padding.bytes| + |VerifyKeys(t)| + |payload|
    ensures Content(t, padding, payload)[0..4] == Word(MAGIC)
  {
    hide Word, VerifyKeys;
  }

  /** The key that a content was encrypted with shows the magic value it starts with. */
  lemma MagicShows(c: Primitives, key: Bytes, packet: Bytes, content: Bytes)
    requires |packet| == 3 + |content| && packet[3..] == Crypt(c.stream, key, 0, content)
    requires |content| >= 5 && content[0..4] == Word(MAGIC)
    ensures WordAt(Crypt(c.stream, key, 0, packet[3..7])) == MAGIC
  {
    hide *;
    PieceDecrypts(c, key, packet, content, 0, 4);
    WordOfWord(MAGIC);
  }

  lemma MeantOpens(c: Primitives, t: Target, r: Receiver, kind: Kind, first: bv8, part: Bytes, padding: Padding, payload: Bytes)
    requires t.Valid() && t.Kind() == Some(kind) && |part| == 2 && Meant(t, r, kind)
    requires |Packet(c, t, kind, first, part, padding, payload)| > HEADER
    ensures Opens(c, r, Packet(c, t, kind, first, part, padding, payload), kind)
  {
    var p := Packet(c, t, kind, first, part, padding, payload);
    PacketShape(c, t, kind, first, part, padding, payload);
    MeantKeysAgree(c, t, r, kind, first, part, padding, payload);
    ContentStarts(t, padding, payload);
    hide Packet, Crypt, VerifyKeys, SendKeyData, Meant, KeyOf, ReceiveKey, Content, Word, WordAt;
    MagicShows(c, KeyOf(c, t, kind, part), p, Content(t, padding, payload));
  }

  function KeysIn(t: Target): (bv32, bv32) {
    if t.kad then (t.receiverKey, t.senderKey) else (0, 0)
  }

  lemma ContentParts(t: Target, padding: Padding, payload: Bytes)
    ensures var content := Content(t, padding, payload);
            && |content| == 5 + |padding.bytes| + |VerifyKeys(t) + payload|
            && content[4] == padding.length
            && content[5 + |padding.bytes|..] == VerifyKeys(t) + payload
  {
    var head := Word(MAGIC) + [padding.length] + padding.bytes;
    assert Content(t, padding, payload) == head + (VerifyKeys(t) + payload);
    hide Word, VerifyKeys, Content;
  }

  lemma TailDecrypts(c: Primitives, key: Bytes, packet: Bytes, content: Bytes, lo: nat)
    requires |packet| == 3 + |content| && packet[3..] == Crypt(c.stream, key, 0, content)
    requires lo <= |content|
    ensures Crypt(c.stream, key, lo, packet[3 + lo..]) == content[lo..]
  {
    PieceDecrypts(c, key, packet, content, lo, |content|);
    assert packet[3 + lo..3 + |content|] == packet[3 + lo..] && content[lo..|content|] == content[lo..];
  }

  lemma PadByteDecrypts(c: Primitives, key: Bytes, packet: Bytes, content: Bytes)
    requires |packet| == 3 + |content| && packet[3..] == Crypt(c.stream, key, 0, content) && |content| >= 5
    ensures Crypt(c.stream, key, 4, packet[7..HEADER])[0] == content[4]
  {
    hide Crypt;
    PieceDecrypts(c, key, packet, content, 4, 5);
    assert content[4..5][0] == content[4];
  }

  /** The receiver learns the length of the padding and comes to what follows it. */
  lemma PaddingTaken(c: Primitives, key: Bytes, t: Target, packet: Bytes, padding: Padding, payload: Bytes)
    requires padding.Valid() && |packet| > HEADER && |packet| == 3 + |Content(t, padding, payload)|
    requires packet[3..] == Crypt(c.stream, key, 0, Content(t, padding, payload))
    ensures |packet| == HEADER + |padding.bytes| + |VerifyKeys(t) + payload|
    ensures Size(Crypt(c.stream, key, 4, packet[7..HEADER])[0]) == |padding.bytes|
    ensures Crypt(c.stream, key, 5 + |padding.bytes|, packet[HEADER + |padding.bytes|..]) == VerifyKeys(t) + payload
  {
    var content, n := Content(t, padding, payload), |padding.bytes|;
    assert Size(padding.length) == n && HEADER == 8;
    hide *;
    ContentParts(t, padding, payload);
    PadByteDecrypts(c, key, packet, content);
    var lo := 5 + n;
    TailDecrypts(c, key, packet, content, lo);
    assert 3 + lo == HEADER + n;
  }

  lemma OpenIsRest(stream: Stream, key: Bytes, kad: bool, packet: Bytes, n: nat, rest: Bytes)
    requires |packet| > HEADER && |packet| == HEADER + n + |rest|
    requires Size(Crypt(stream, key, 4, packet[7..HEADER])[0]) == n
    requires Crypt(stream, key, 5 + n, packet[HEADER + n..]) == rest
    ensures Open(stream, key, kad, packet)
         == if rest == [] then PassedThrough else if kad then OpenKad(rest) else Opened(rest, 0, 0)
  {
    hide Crypt, Size, OpenKad;
  }

  lemma NoVerifyKeys(t: Target, payload: Bytes)
    requires !t.kad
    ensures VerifyKeys(t) + payload == payload
  {
  }

  lemma OpenOfEd2k(c: Primitives, key: Bytes, t: Target, packet: Bytes, padding: Padding, payload: Bytes)
    requires padding.Valid() && |packet| > HEADER && |packet| == 3 + |Content(t, padding, payload)| && !t.kad
    requires packet[3..] == Crypt(c.stream, key, 0, Content(t, padding, payload))
    ensures Open(c.stream, key, false, packet) == if payload == [] then PassedThrough else Opened(payload, 0, 0)
  {
    hide *;
    NoVerifyKeys(t, payload);
    PaddingTaken(c, key, t, packet, padding, payload);
    OpenIsRest(c.stream, key, false, packet, |padding.bytes|, payload);
  }

  lemma KadParts(t: Target, payload: Bytes)
    requires t.kad
    ensures VerifyKeys(t) + payload != []
    ensures OpenKad(VerifyKeys(t) + payload)
         == if payload == [] then PassedThrough else Opened(payload, t.receiverKey, t.senderKey)
  {
    WordOfWord(t.receiverKey);
    WordOfWord(t.senderKey);
    var first, second, rest := Word(t.receiverKey), Word(t.senderKey), VerifyKeys(t) + payload;
    assert rest == first + second + payload;
    hide Word, WordAt, VerifyKeys;
    assert rest[..4] == first && rest[4..8] == second && rest[8..] == payload;
  }

  lemma OpenOfKad(c: Primitives, key: Bytes, t: Target, packet: Bytes, padding: Padding, payload: Bytes)
    requires padding.Valid() && |packet| > HEADER && |packet| == 3 + |Content(t, padding, payload)| && t.kad
    requires packet[3..] == Crypt(c.stream, key, 0, Content(t, padding, payload))
    ensures Open(c.stream, key, true, packet) ==
            if payload == [] then PassedThrough else Opened(payload, t.receiverKey, t.senderKey)
  {
    hide *;
    KadParts(t, payload);
    PaddingTaken(c, key, t, packet, padding, payload);
    OpenIsRest(c.stream, key, true, packet, |padding.bytes|, VerifyKeys(t) + payload);
  }

  /** What the right key makes of the packet. */
  lemma OpensToPayload(c: Primitives, t: Target, r: Receiver, kind: Kind, first: bv8, part: Bytes, padding: Padding, payload: Bytes)
    requires padding.Valid() && t.Valid() && t.Kind() == Some(kind) && |part| == 2 && Meant(t, r, kind) && payload != []
    ensures var p := Packet(c, t, kind, first, part, padding, payload);
            && |p| > HEADER
            && Open(c.stream, ReceiveKey(c, r, kind, p), kind != ED2K, p) == Opened(payload, KeysIn(t).0, KeysIn(t).1)
  {
    var p := Packet(c, t, kind, first, part, padding, payload);
    PacketShape(c, t, kind, first, part, padding, payload);
    MeantKeysAgree(c, t, r, kind, first, part, padding, payload);
    hide Packet, Open, Crypt, VerifyKeys, SendKeyData, Meant, KeyOf, ReceiveKey, Word;
    var key := KeyOf(c, t, kind, part);
    assert t.kad == (kind != ED2K);
    if t.kad {
      OpenOfKad(c, key, t, p, padding, payload);
    } else {
      OpenOfEd2k(c, key, t, p, padding, payload);
    }
  }

  /** No key that is tried before `kind` happens to show the magic value. */
  ghost predicate NoEarlierKeyOpens(c: Primitives, r: Receiver, packet: Bytes, kind: Kind)
    requires |packet| > HEADER
  {
    forall n :: 0 <= n < Distance(Start(r, packet), kind) ==> !Opens(c, r, packet, After(Start(r, packet), n))
  }

  lemma FoundIfNoEarlier(c: Primitives, r: Receiver, packet: Bytes, kind: Kind)
    requires |packet| > HEADER && (r.kad || kind == ED2K)
    requires Opens(c, r, packet, kind) && NoEarlierKeyOpens(c, r, packet, kind)
    ensures Find(c, r, packet, Start(r, packet), Tries(r)) == Some(kind)
  {
    var start := Start(r, packet);
    DistanceIsShort(start, kind);
    assert Distance(start, kind) < Tries(r);
    hide Opens, After, Distance, Start, Tries, Find;
    FindIsFirst(c, r, packet, start, Tries(r), Distance(start, kind));
  }

  /**
   * Every datagram of the format, padded or not, gives its intended receiver the payload and,
   * for Kad, both verify keys, unless a key tried earlier happens to show the magic value.
   */
  lemma DecryptsWhenFound(c: Primitives, t: Target, r: Receiver, kind: Kind, first: bv8, part: Bytes,
                          padding: Padding, payload: Bytes)
    requires padding.Valid() && t.Valid() && t.Kind() == Some(kind) && |part| == 2 && Meant(t, r, kind) && payload != [] && !Plain(first)
    requires var p := Packet(c, t, kind, first, part, padding, payload); |p| > HEADER && NoEarlierKeyOpens(c, r, p, kind)
    ensures Decrypt(c, r, Packet(c, t, kind, first, part, padding, payload)) == Opened(payload, KeysIn(t).0, KeysIn(t).1)
  {
    var p := Packet(c, t, kind, first, part, padding, payload);
    PacketShape(c, t, kind, first, part, padding, payload);
    MeantOpens(c, t, r, kind, first, part, padding, payload);
    OpensToPayload(c, t, r, kind, first, part, padding, payload);
    assert r.kad || kind == ED2K;
    hide Opens, Open, Packet, Plain, FirstByte, ReceiveKey, KeysIn, Start, Tries, Find, Meant, NoEarlierKeyOpens, Encrypt;
    FoundIfNoEarlier(c, r, p, kind);
  }

  /**
   * Outside the fallback, and for ed2k even then, decrypting at the intended receiver
   * returns the payload and the verify keys exactly when the payload is not empty.
   */
  lemma DecryptsWhatWasEncrypted(c: Primitives, t: Target, r: Receiver, kind: Kind,
                                 draws: Bytes, part: Bytes, payload: Bytes)
    requires t.Valid() && t.Kind() == Some(kind) && |part| == 2 && Meant(t, r, kind)
    requires Marker(kind, draws).Some? || kind == ED2K
    ensures Decrypt(c, r, Encrypt(c, t, draws, part, payload)) == Opened(payload, KeysIn(t).0, KeysIn(t).1)
      <==> payload != []
  {
    var p := Encrypt(c, t, draws, part, payload);
    if payload == [] {
      if Decrypt(c, r, p).Opened? {
        hide Decrypt, Encrypt;
        OpenedIsNotEmpty(c, r, p);
      }
    } else {
      MarkerTells(kind, draws);
      PacketShape(c, t, kind, FirstByte(kind, draws), part, NO_PADDING, payload);
      assert FirstTry(0x01) == ED2K;
      assert Start(r, p) == kind;
      DistanceIsShort(kind, kind);
      hide Decrypt, Distance;
      DecryptsWhenFound(c, t, r, kind, FirstByte(kind, draws), part, NO_PADDING, payload);
    }
  }

  /** Without a key the data goes out as it is, and only then. */
  lemma UnencryptedWhenNoKey(c: Primitives, t: Target, draws: Bytes, part: Bytes, payload: Bytes)
    requires t.Valid() && |part| == 2
    ensures |Encrypt(c, t, draws, part, payload)| == |payload| <==> t.kad && !t.HasHash() && t.receiverKey == 0
    ensures t.kad && !t.HasHash() && t.receiverKey == 0 ==> Encrypt(c, t, draws, part, payload) == payload
  {
    if t.Kind().Some? {
      var kind := t.Kind().value;
      PacketShape(c, t, kind, FirstByte(kind, draws), part, NO_PADDING, payload);
    }
  }
}
