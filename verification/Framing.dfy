/** How a byte stream is cut into packets: a six-byte header whose bytes 1 to 4 give the size. */
module Framing {
  import opened Words
  import opened Encoding

  const PACKET_HEADER_SIZE: nat := 6
  const MAX_PACKET_SIZE: nat := 2_000_000

  const OP_EDONKEYPROT: nat := 0x02
  const OP_PACKEDPROT: nat := 0x03
  const OP_EMULEPROT: nat := 0x04
  const OP_ED2KV2HEADER: nat := 0xF4
  const OP_ED2KV2PACKEDPROT: nat := 0xF5

  type Bytes = seq<uint8>

  /** A packet as it is handed over: the header, what was read of the body, and the size that the packet tells. */
  datatype Frame = Frame(header: Bytes, body: Bytes, size: uint32)

  /** The length field: the bytes that follow it, the opcode included. */
  function Length(header: Bytes): uint32
    requires |header| == PACKET_HEADER_SIZE
  {
    header[1] as nat + 0x100 * header[2] as nat + 0x1_0000 * header[3] as nat + 0x100_0000 * header[4] as nat
  }

  /** The length field is a number of four bytes, the lowest first. */
  lemma LengthIsLittleEndian(header: Bytes)
    requires |header| == PACKET_HEADER_SIZE
    ensures header[1..5] == LittleEndian(Length(header), 4) && Length(header) == Number(header[1..5])
  {
    FourBytes(header[1], header[2], header[3], header[4]);
    assert header[1..5] == [header[1], header[2], header[3], header[4]];
    Limits();
    hide LittleEndian;
    NumberOfLittleEndian(Length(header), 4);
  }

  lemma LengthOfHeader(protocol: uint8, n: uint32, opcode: uint8)
    ensures Length([protocol] + LittleEndian(n, 4) + [opcode]) == n
  {
    var header := [protocol] + LittleEndian(n, 4) + [opcode];
    assert header[1..5] == LittleEndian(n, 4);
    Limits();
    LengthIsLittleEndian(header);
    LittleEndianInjective(Length(header), n, 4);
  }

  /** How many bytes of a body are read for a header; nonsensical sizes count as an empty body. */
  function BodySize(header: Bytes): nat
    requires |header| == PACKET_HEADER_SIZE
  {
    var size := Length(header);
    if size < 1 || size >= 0x7fff_fff0 then 0 else size - 1
  }

  /** The body that is read, in terms of the four bytes. */
  lemma BodySizeTells(header: Bytes)
    requires |header| == 6
    ensures BodySize(header) == if 1 <= Number(header[1..5]) < 0x7fff_fff0 then Number(header[1..5]) - 1 else 0
    ensures BodySize(header) > MAX_PACKET_SIZE <==> 2_000_001 < Number(header[1..5]) < 0x7fff_fff0
  {
    LengthIsLittleEndian(header);
    hide Number, LittleEndian, Length;
  }

  /** The size that the packet made from a header tells, in 32 bits and for any length. */
  function DeclaredSize(header: Bytes): uint32
    requires |header| == PACKET_HEADER_SIZE
  {
    (Length(header) - 1) % TWO32
  }

  /** The constructor for received packets. */
  function NewFrame(rawHeader: Bytes, buf: Bytes): Frame
    requires |rawHeader| == PACKET_HEADER_SIZE
  {
    Frame(rawHeader, buf, DeclaredSize(rawHeader))
  }

  predicate ProperLength(header: Bytes)
    requires |header| == PACKET_HEADER_SIZE
  {
    1 <= Length(header) < 0x7fff_fff0
  }

  /** A packet tells the size that was read if and only if its length field is proper; otherwise it tells more. */
  lemma DeclaredIsRead(header: Bytes)
    requires |header| == PACKET_HEADER_SIZE
    ensures DeclaredSize(header) == BodySize(header) <==> ProperLength(header)
    ensures BodySize(header) <= DeclaredSize(header)
  {
    if Length(header) == 0 {
      assert -1 % TWO32 == TWO32 - 1;
    }
  }

  predicate KnownProtocol(header: Bytes)
    requires |header| == PACKET_HEADER_SIZE
  {
    header[0] in {OP_EDONKEYPROT, OP_PACKEDPROT, OP_EMULEPROT, OP_ED2KV2HEADER, OP_ED2KV2PACKEDPROT}
  }

  ghost predicate WellFormed(f: Frame) {
    && |f.header| == PACKET_HEADER_SIZE
    && KnownProtocol(f.header)
    && |f.body| == BodySize(f.header)
    && f.size == DeclaredSize(f.header)
  }

  /** What the bytes of a packet are: a known protocol, and in front of a body of n bytes the number n + 1, the lowest
      byte first; or a number that is no proper length, and no body. */
  lemma FrameTells(f: Frame)
    requires WellFormed(f)
    ensures f.header[0] in {0x02, 0x03, 0x04, 0xF4, 0xF5}
    ensures if 1 <= Number(f.header[1..5]) < 0x7fff_fff0
            then f.header[1..5] == LittleEndian(|f.body| + 1, 4) && f.size == |f.body|
            else f.body == [] && f.size == (Number(f.header[1..5]) - 1) % TWO32
  {
    LengthIsLittleEndian(f.header);
    hide LittleEndian, Number;
  }

  ghost predicate AllWellFormed(fs: seq<Frame>) {
    forall i :: 0 <= i < |fs| ==> WellFormed(fs[i])
  }

  /** A header and body still being received: never a whole packet, except that a packet with an
      empty body may wait for the next call. */
  ghost predicate Partial(header: Bytes, body: Bytes) {
    && |header| <= PACKET_HEADER_SIZE
    && (|header| < PACKET_HEADER_SIZE ==> body == [])
    && (|header| == PACKET_HEADER_SIZE ==> |body| < BodySize(header) || body == [])
  }

  function FrameBytes(fs: seq<Frame>): Bytes {
    if fs == [] then [] else fs[0].header + fs[0].body + FrameBytes(fs[1..])
  }

  lemma {:induction false} FrameBytesAppend(fs: seq<Frame>, f: Frame)
    ensures FrameBytes(fs + [f]) == FrameBytes(fs) + f.header + f.body
  {
    if fs == [] {
      assert [f][1..] == [];
      assert fs + [f] == [f];
    } else {
      assert (fs + [f])[1..] == fs[1..] + [f];
      FrameBytesAppend(fs[1..], f);
    }
  }

  /** The stream read so far: the delivered packets followed by what is pending. */
  function Stream(fs: seq<Frame>, h: Bytes, b: Bytes): Bytes {
    FrameBytes(fs) + (h + b)
  }

  lemma StreamGrows(fs: seq<Frame>, h: Bytes, b: Bytes, chunk: Bytes)
    ensures Stream(fs, h, b + chunk) == Stream(fs, h, b) + chunk
    ensures b == [] ==> Stream(fs, h + chunk, b) == Stream(fs, h, b) + chunk
  {
  }

  lemma StreamDelivers(fs: seq<Frame>, h: Bytes, b: Bytes)
    requires |h| == PACKET_HEADER_SIZE
    ensures Stream(fs + [NewFrame(h, b)], [], []) == Stream(fs, h, b)
    ensures FrameBytes(fs + [NewFrame(h, b)]) == Stream(fs, h, b)
  {
    FrameBytesAppend(fs, NewFrame(h, b));
    hide DeclaredSize;
  }

  // ----- what the handlers take from the packets -----

  /** Every length field is proper. */
  ghost predicate AllProper(fs: seq<Frame>)
    requires AllWellFormed(fs)
  {
    forall i :: 0 <= i < |fs| ==> ProperLength(fs[i].header)
  }

  /** The sizes that the packets tell, with their headers. */
  function DeclaredBytes(fs: seq<Frame>): nat {
    if fs == [] then 0 else PACKET_HEADER_SIZE + fs[0].size + DeclaredBytes(fs[1..])
  }

  /** The packets as their handlers take them: as many bytes of the buffer as the packet tells. */
  function Contents(fs: seq<Frame>): Bytes
    requires forall i :: 0 <= i < |fs| ==> fs[i].size <= |fs[i].body|
  {
    if fs == [] then [] else fs[0].header + fs[0].body[..fs[0].size] + Contents(fs[1..])
  }

  /** The sizes told add up to the bytes read if and only if every length field is proper, and then the handlers
      take exactly the bytes that were read. */
  lemma {:induction false} ToldIsRead(fs: seq<Frame>)
    requires AllWellFormed(fs)
    ensures DeclaredBytes(fs) >= |FrameBytes(fs)|
    ensures DeclaredBytes(fs) == |FrameBytes(fs)| <==> AllProper(fs)
    ensures AllProper(fs) ==> (forall i :: 0 <= i < |fs| ==> fs[i].size <= |fs[i].body|) && Contents(fs) == FrameBytes(fs)
  {
    if fs != [] {
      var f, rest := fs[0], fs[1..];
      DeclaredIsRead(f.header);
      assert WellFormed(f);
      assert AllWellFormed(rest) by {
        assert forall i :: 0 <= i < |rest| ==> rest[i] == fs[i + 1];
      }
      hide DeclaredSize, BodySize, Length, ProperLength;
      ToldIsRead(rest);
      assert AllProper(fs) <==> ProperLength(f.header) && AllProper(rest) by {
        assert fs == [f] + rest;
      }
      if AllProper(fs) {
        assert f.body[..f.size] == f.body;
        assert forall i :: 0 < i < |fs| ==> fs[i] == rest[i - 1];
      }
    }
  }

  /** A length field of 0: no body is read, and the packet tells 2^32 - 1 bytes. */
  lemma SizeIsOverstated(protocol: uint8, opcode: uint8)
    requires protocol == OP_EDONKEYPROT
    ensures var f := NewFrame([protocol, 0, 0, 0, 0, opcode], []);
            WellFormed(f) && FrameBytes([f]) == f.header && f.size == 0xFFFF_FFFF && DeclaredBytes([f]) > |FrameBytes([f])|
  {
    var f := NewFrame([protocol, 0, 0, 0, 0, opcode], []);
    assert Length(f.header) == 0 && -1 % TWO32 == TWO32 - 1;
    assert [f][1..] == [];
  }

  lemma {:induction false} FrameBytesAreMany(fs: seq<Frame>)
    requires AllWellFormed(fs)
    ensures |FrameBytes(fs)| >= PACKET_HEADER_SIZE * |fs|
  {
    if fs != [] {
      assert WellFormed(fs[0]);
      FrameBytesAreMany(fs[1..]);
    }
  }

  /** The packets cut from those six bytes. */
  lemma SixBytesOverstate(fs: seq<Frame>, opcode: uint8)
    requires AllWellFormed(fs) && fs != [] && FrameBytes(fs) <= [OP_EDONKEYPROT, 0, 0, 0, 0, opcode]
    ensures fs == [NewFrame([OP_EDONKEYPROT, 0, 0, 0, 0, opcode], [])] && fs[0].size == 0xFFFF_FFFF
  {
    SizeIsOverstated(OP_EDONKEYPROT, opcode);
    FrameBytesAreMany(fs);
    var f, header := fs[0], [OP_EDONKEYPROT, 0, 0, 0, 0, opcode];
    assert WellFormed(f) && fs == [f];
    hide DeclaredSize, BodySize, Length, KnownProtocol;
    assert FrameBytes(fs) == f.header + f.body + FrameBytes(fs[1..]);
    assert f.header == FrameBytes(fs)[..6] == header[..6] == header;
  }

  lemma Peel(fs: seq<Frame>, h: Bytes, b: Bytes)
    requires fs != []
    ensures Stream(fs, h, b) == fs[0].header + (fs[0].body + Stream(fs[1..], h, b))
  {
  }

  /** Two streams, one a prefix of the other, that both start with a whole packet start with the same one. */
  lemma SameFirst(f: Frame, rest: Bytes, g: Frame, more: Bytes)
    requires WellFormed(f) && WellFormed(g)
    requires f.header + (f.body + rest) <= g.header + (g.body + more)
    ensures f == g && rest <= more
  {
    var s, t := f.header + (f.body + rest), g.header + (g.body + more);
    assert f.header == s[..6] && g.header == t[..6] && s[..6] == t[..6];
    assert s[6..] == f.body + rest && t[6..] == g.body + more;
    assert s[6..] <= t[6..];
    var n := |f.body|;
    assert f.body == s[6..][..n] && g.body == t[6..][..n];
    assert rest == s[6..][n..] && more == t[6..][n..];
  }

  /** The packets delivered depend only on the stream: if one reader has seen a prefix of what
      the other has seen, whatever the splitting of their reads, one list of delivered packets
      is a prefix of the other. */
  lemma {:induction false} DeliveryIsDetermined(fs: seq<Frame>, h: Bytes, b: Bytes, gs: seq<Frame>, k: Bytes, c: Bytes)
    requires AllWellFormed(fs) && AllWellFormed(gs)
    requires Stream(fs, h, b) <= Stream(gs, k, c)
    ensures fs <= gs || gs <= fs
  {
    hide Stream;
    if fs != [] && gs != [] {
      Peel(fs, h, b);
      Peel(gs, k, c);
      SameFirst(fs[0], Stream(fs[1..], h, b), gs[0], Stream(gs[1..], k, c));
      DeliveryIsDetermined(fs[1..], h, b, gs[1..], k, c);
      assert fs == [fs[0]] + fs[1..] && gs == [gs[0]] + gs[1..];
    }
  }

  /** Less than a packet cannot contain one. */
  lemma PartialIsShort(f: Frame, rest: Bytes, k: Bytes, c: Bytes)
    requires WellFormed(f) && Partial(k, c)
    requires f.header + (f.body + rest) <= Stream([], k, c)
    ensures |k| == PACKET_HEADER_SIZE && BodySize(k) == 0
  {
    var s, t := f.header + (f.body + rest), k + c;
    assert Stream([], k, c) == t;
    assert f.header == s[..6] && s[..6] == t[..6];
    assert |t| >= 6 + |f.body|;
    assert t[..6] == k;
  }

  /** Nothing whole is held back: a reader that has no empty-bodied packet pending has delivered
      at least the packets of every other reader of a prefix of its stream. */
  lemma {:induction false} NothingHeldBack(fs: seq<Frame>, h: Bytes, b: Bytes, gs: seq<Frame>, k: Bytes, c: Bytes)
    requires AllWellFormed(fs) && AllWellFormed(gs)
    requires Partial(k, c) && (|k| < PACKET_HEADER_SIZE || BodySize(k) > 0)
    requires Stream(fs, h, b) <= Stream(gs, k, c)
    ensures fs <= gs
  {
    hide Stream;
    if fs != [] {
      Peel(fs, h, b);
      if gs == [] {
        PartialIsShort(fs[0], Stream(fs[1..], h, b), k, c);
      } else {
        Peel(gs, k, c);
        SameFirst(fs[0], Stream(fs[1..], h, b), gs[0], Stream(gs[1..], k, c));
        NothingHeldBack(fs[1..], h, b, gs[1..], k, c);
        assert fs == [fs[0]] + fs[1..] && gs == [gs[0]] + gs[1..];
      }
    }
  }
}
