/** Two peers that identify themselves to each other over two FIFO channels: every interleaving
    of deliveries ends, and ends with both having signed. Each then has identified the other
    exactly when it had before or can check the other's signature. */
module IdentHandshake {
  import opened Words
  import opened ClientCredits
  import opened Encoding
  import opened SecureIdent

  /** One side: the peer, its session with the other, the other's credits. */
  datatype Side = Side(me: Me, session: Session, credits: Credits)

  /** `ab` carries what A sent and B has not read yet, `ba` the reverse. */
  datatype Link = Link(a: Side, b: Side, ab: seq<Message>, ba: seq<Message>)

  /** A side before the handshake: connected anew, without the other's key, or with a key that was received,
      stored or verified earlier. */
  predicate Ready(x: Side, other: Key) {
    && CryptoAvailable(x.me) && |x.me.pub| <= MAXPUBKEYSIZE
    && x.session.state == IS_UNAVAILABLE && x.session.lastSignatureDest != x.session.tcpDest
    && Consistent(x.credits) && (x.credits.key == [] || x.credits.key == other)
  }

  /** What a side asks for. */
  function Wanted(x: Side): uint8 {
    if x.credits.key == [] then IS_KEYANDSIGNEEDED else IS_SIGNATURENEEDED
  }

  /** Both sides have sent their OP_SECIDENTSTATE and nothing else. */
  function Opened(a: Side, b: Side, ca: uint32, cb: uint32): Link
    requires Ready(a, b.me.pub) && Ready(b, a.me.pub)
  {
    var (a', outA) := Challenge(a.me, a.session, a.credits, ca);
    var (b', outB) := Challenge(b.me, b.session, b.credits, cb);
    Link(a.(credits := a'), b.(credits := b'), outA, outB)
  }

  function Receive(x: Side, m: Message): (Side, seq<Message>) {
    var (s, c, out) := Handle(x.me, x.session, x.credits, m);
    (x.(session := s, credits := c), out)
  }

  /** Delivers the oldest message to B (or to A), if there is one. */
  function Deliver(l: Link, toB: bool): Link {
    if toB then
      if l.ab == [] then l
      else
        var (b, out) := Receive(l.b, l.ab[0]);
        l.(b := b, ab := l.ab[1..], ba := l.ba + out)
    else
      if l.ba == [] then l
      else
        var (a, out) := Receive(l.a, l.ba[0]);
        l.(a := a, ba := l.ba[1..], ab := l.ab + out)
  }

  function Run(l: Link, schedule: seq<bool>): Link
    decreases |schedule|
  {
    if schedule == [] then l else Deliver(Run(l, schedule[..|schedule| - 1]), schedule[|schedule| - 1])
  }

  // ----- what a side sends and becomes, told from how many messages it has read -----

  /** The signature x makes for y's challenge. */
  function SignatureMessage(x: Side, y: Side, challenge: uint32): Message {
    if x.session.support % 2 == 1 then
      SignatureOf(Signature(x.me.pub, Content(y.me.pub, challenge, 0, 0)), None)
    else
      SignatureOf(Signature(x.me.pub, Content(y.me.pub, challenge, x.me.publicDest, CRYPT_CIP_LOCALCLIENT)),
                  Some(CRYPT_CIP_LOCALCLIENT))
  }

  /** All that x sends to y in the whole handshake; cx and cy are the challenges of x and y. */
  function Stream(x: Side, y: Side, cx: uint32, cy: uint32): seq<Message> {
    [SecIdentState(Wanted(x), cx)]
    + (if Wanted(y) == IS_KEYANDSIGNEEDED then [PublicKey(x.me.pub)] else [])
    + [SignatureMessage(x, y, cy)]
  }

  /** x after the first k messages of y, and what it has sent by then. */
  function Later(x: Side, y: Side, cx: uint32, cy: uint32, k: nat): (Side, seq<Message>)
    requires k <= |Stream(y, x, cy, cx)|
  {
    if k == 0 then (x.(credits := x.credits.(challengeFor := cx)), [SecIdentState(Wanted(x), cx)])
    else
      var (x', sent) := Later(x, y, cx, cy, k - 1);
      var (x'', out) := Receive(x', Stream(y, x, cy, cx)[k - 1]);
      (x'', sent + out)
  }

  /** How many messages x has sent after reading k. */
  function SentAfter(x: Side, y: Side, k: nat): nat {
    if k == 0 then 1
    else
      1 + (if Wanted(y) == IS_KEYANDSIGNEEDED then 1 else 0)
      + (if Wanted(x) == IS_KEYANDSIGNEEDED && k == 1 then 0 else 1)
  }

  /** x's first packet of y tells it what y wants; x answers as far as it can. */
  function AfterState(x: Side, cx: uint32, cy: uint32): Side {
    x.(session := x.session.(state := if x.credits.key == [] then IS_SIGNATURENEEDED else IS_ALLREQUESTSSEND),
       credits := x.credits.(challengeFor := cx, challengeFrom := cy))
  }

  /** y's key arrives, and the signature that waited for it leaves. */
  function AfterKey(x: Side, y: Side, cx: uint32, cy: uint32): Side {
    x.(session := x.session.(state := IS_ALLREQUESTSSEND),
       credits := x.credits.(challengeFor := cx, challengeFrom := cy, key := y.me.pub, identState := IdNeeded))
  }

  lemma StateStep(x: Side, y: Side, cx: uint32, cy: uint32)
    requires Ready(x, y.me.pub) && Ready(y, x.me.pub) && cx != 0 && cy != 0
    ensures var (x', sent) := Later(x, y, cx, cy, 1);
            x' == AfterState(x, cx, cy) && sent == Stream(x, y, cx, cy)[..SentAfter(x, y, 1)]
  {
    var (x0, sent0) := Later(x, y, cx, cy, 0);
    var m := Stream(y, x, cy, cx)[0];
    assert m == SecIdentState(Wanted(y), cy);
    assert Later(x, y, cx, cy, 1) == (Receive(x0, m).0, sent0 + Receive(x0, m).1);
    var key := if Wanted(y) == IS_KEYANDSIGNEEDED then [PublicKey(x.me.pub)] else [];
    if x.credits.key == [] {
      assert Receive(x0, m).1 == key;
    } else {
      assert Receive(x0, m).1 == key + [SignatureMessage(x, y, cy)];
    }
  }

  lemma KeyStep(x: Side, y: Side, cx: uint32, cy: uint32)
    requires Ready(x, y.me.pub) && Ready(y, x.me.pub) && cx != 0 && cy != 0
    requires Wanted(x) == IS_KEYANDSIGNEEDED
    ensures var (x', sent) := Later(x, y, cx, cy, 2);
            x' == AfterKey(x, y, cx, cy) && sent == Stream(x, y, cx, cy)
  {
    StateStep(x, y, cx, cy);
    var (x1, sent1) := Later(x, y, cx, cy, 1);
    var m := Stream(y, x, cy, cx)[1];
    assert m == PublicKey(y.me.pub);
    assert Later(x, y, cx, cy, 2) == (Receive(x1, m).0, sent1 + Receive(x1, m).1);
    assert Receive(x1, m) == (AfterKey(x, y, cx, cy), [SignatureMessage(x, y, cy)]);
    assert sent1 + [SignatureMessage(x, y, cy)] == Stream(x, y, cx, cy);
  }

  /** x understands the version y signs in and, in version 2, sees y under the address y signs. */
  predicate Compatible(y: Side, x: Side) {
    || y.session.support % 2 == 1
    || (x.session.support / 2 % 2 == 1 && y.me.publicDest == x.session.tcpDest)
  }

  lemma ContentTellsAddress(pub: Key, challenge: uint32, ip: uint32, other: uint32)
    ensures Content(pub, challenge, ip, CRYPT_CIP_LOCALCLIENT) == Content(pub, challenge, other, CRYPT_CIP_LOCALCLIENT) <==> ip == other
  {
    var c, d := Content(pub, challenge, ip, CRYPT_CIP_LOCALCLIENT), Content(pub, challenge, other, CRYPT_CIP_LOCALCLIENT);
    var n := |pub| + 4;
    assert c[n..n + 4] == LittleEndian(ip, 4) && d[n..n + 4] == LittleEndian(other, 4);
    if c == d {
      Limits();
      LittleEndianInjective(ip, other, 4);
    }
  }

  /** x counts the address it sees as identified. */
  predicate Knows(x: Side) {
    CurrentIdentState(x.credits, x.session.tcpDest) == Identified
  }

  /** The signature arrives at a side that waits for nothing else. */
  lemma SignatureStep(x: Side, y: Side, now: Side, cx: uint32)
    requires Ready(x, y.me.pub) && CryptoAvailable(y.me) && cx != 0
    requires now.me == x.me && now.session == x.session.(state := IS_ALLREQUESTSSEND)
    requires now.credits.key == y.me.pub && now.credits.challengeFor == cx
    ensures var (x', out) := Receive(now, SignatureMessage(y, x, cx));
            && out == [] && x'.me == x.me && x'.session.tcpDest == x.session.tcpDest
            && x'.session.state == IS_ALLREQUESTSSEND
            && (Knows(x') <==> Compatible(y, x) || Knows(now))
  {
    ContentTellsAddress(x.me.pub, cx, y.me.publicDest, x.session.tcpDest);
  }

  lemma LastStep(x: Side, y: Side, cx: uint32, cy: uint32)
    requires Ready(x, y.me.pub) && Ready(y, x.me.pub) && cx != 0 && cy != 0
    ensures var n := |Stream(y, x, cy, cx)|;
            var (x', sent) := Later(x, y, cx, cy, n);
            && sent == Stream(x, y, cx, cy) && x'.session.state == IS_ALLREQUESTSSEND
            && x'.session.tcpDest == x.session.tcpDest
            && (Knows(x') <==> Compatible(y, x) || Knows(x))
  {
    var stream := Stream(y, x, cy, cx);
    var k := |stream| - 1;
    StateStep(x, y, cx, cy);
    if Wanted(x) == IS_KEYANDSIGNEEDED {
      KeyStep(x, y, cx, cy);
    } else {
      assert Stream(x, y, cx, cy)[..SentAfter(x, y, 1)] == Stream(x, y, cx, cy);
    }
    var (now, sent) := Later(x, y, cx, cy, k);
    assert stream[k] == SignatureMessage(y, x, cx);
    SignatureStep(x, y, now, cx);
    assert Later(x, y, cx, cy, k + 1) == (Receive(now, stream[k]).0, sent + Receive(now, stream[k]).1);
  }

  /** What x has sent is a known part of its stream, however the deliveries were interleaved. */
  lemma SentIsPrefix(x: Side, y: Side, cx: uint32, cy: uint32, k: nat)
    requires Ready(x, y.me.pub) && Ready(y, x.me.pub) && cx != 0 && cy != 0
    requires k <= |Stream(y, x, cy, cx)|
    ensures SentAfter(x, y, k) <= |Stream(x, y, cx, cy)|
    ensures Later(x, y, cx, cy, k).1 == Stream(x, y, cx, cy)[..SentAfter(x, y, k)]
  {
    if k == 1 {
      StateStep(x, y, cx, cy);
    } else if k == |Stream(y, x, cy, cx)| {
      LastStep(x, y, cx, cy);
    } else if k == 2 {
      KeyStep(x, y, cx, cy);
    }
  }

  // ----- every interleaving -----

  /** The link after A has read ka messages and B kb, in whatever order. */
  ghost predicate At(l: Link, a: Side, b: Side, ca: uint32, cb: uint32, ka: nat, kb: nat) {
    var sa, sb := Stream(a, b, ca, cb), Stream(b, a, cb, ca);
    && ka <= SentAfter(b, a, kb) <= |sb| && kb <= SentAfter(a, b, ka) <= |sa|
    && l.a == Later(a, b, ca, cb, ka).0 && l.b == Later(b, a, cb, ca, kb).0
    && l.ab == sa[kb..SentAfter(a, b, ka)] && l.ba == sb[ka..SentAfter(b, a, kb)]
  }

  lemma DeliverToB(l: Link, a: Side, b: Side, ca: uint32, cb: uint32, ka: nat, kb: nat)
    requires Ready(a, b.me.pub) && Ready(b, a.me.pub) && ca != 0 && cb != 0
    requires At(l, a, b, ca, cb, ka, kb) && l.ab != []
    ensures At(Deliver(l, true), a, b, ca, cb, ka, kb + 1)
  {
    var sa, sb := Stream(a, b, ca, cb), Stream(b, a, cb, ca);
    assert l.ab[0] == sa[kb];
    SentIsPrefix(b, a, cb, ca, kb);
    SentIsPrefix(b, a, cb, ca, kb + 1);
    var out := Receive(l.b, sa[kb]).1;
    assert Later(b, a, cb, ca, kb + 1) == (Receive(l.b, sa[kb]).0, Later(b, a, cb, ca, kb).1 + out);
    var m, n := SentAfter(b, a, kb), SentAfter(b, a, kb + 1);
    assert sb[..n] == sb[..m] + out;
    assert sb[ka..n] == sb[..n][ka..] == sb[ka..m] + out;
  }

  function Swapped(l: Link): Link { Link(l.b, l.a, l.ba, l.ab) }

  lemma DeliverStep(l: Link, a: Side, b: Side, ca: uint32, cb: uint32, ka: nat, kb: nat, toB: bool)
    requires Ready(a, b.me.pub) && Ready(b, a.me.pub) && ca != 0 && cb != 0
    requires At(l, a, b, ca, cb, ka, kb) && (if toB then l.ab else l.ba) != []
    ensures At(Deliver(l, toB), a, b, ca, cb, if toB then ka else ka + 1, if toB then kb + 1 else kb)
  {
    if toB {
      DeliverToB(l, a, b, ca, cb, ka, kb);
    } else {
      DeliverToB(Swapped(l), b, a, cb, ca, kb, ka);
      assert Deliver(l, false) == Swapped(Deliver(Swapped(l), true));
    }
  }

  /** Every entry of the schedule finds a message to deliver. */
  ghost predicate Effective(l: Link, schedule: seq<bool>) {
    forall i :: 0 <= i < |schedule| ==>
      var m := Run(l, schedule[..i]); (if schedule[i] then m.ab else m.ba) != []
  }

  lemma OpenedIsAt(a: Side, b: Side, ca: uint32, cb: uint32)
    requires Ready(a, b.me.pub) && Ready(b, a.me.pub) && ca != 0 && cb != 0
    ensures At(Opened(a, b, ca, cb), a, b, ca, cb, 0, 0)
  {
    SentIsPrefix(a, b, ca, cb, 0);
    SentIsPrefix(b, a, cb, ca, 0);
  }

  lemma EffectiveBefore(l: Link, schedule: seq<bool>)
    requires schedule != [] && Effective(l, schedule)
    ensures var before := schedule[..|schedule| - 1];
            && Effective(l, before)
            && (if schedule[|schedule| - 1] then Run(l, before).ab else Run(l, before).ba) != []
  {
    var before := schedule[..|schedule| - 1];
    forall i | 0 <= i < |before| ensures var m := Run(l, before[..i]); (if before[i] then m.ab else m.ba) != [] {
      assert before[..i] == schedule[..i];
    }
  }

  lemma RunStep(l: Link, schedule: seq<bool>)
    ensures if schedule == [] then Run(l, schedule) == l
            else
              var m, toB := Run(l, schedule[..|schedule| - 1]), schedule[|schedule| - 1];
              Run(l, schedule) == Deliver(m, toB) && ((if toB then m.ab else m.ba) == [] ==> Deliver(m, toB) == m)
  {
  }

  lemma {:induction false} RunIsAt(a: Side, b: Side, ca: uint32, cb: uint32, schedule: seq<bool>) returns (ka: nat, kb: nat)
    requires Ready(a, b.me.pub) && Ready(b, a.me.pub) && ca != 0 && cb != 0
    ensures At(Run(Opened(a, b, ca, cb), schedule), a, b, ca, cb, ka, kb)
    ensures Effective(Opened(a, b, ca, cb), schedule) ==> ka + kb == |schedule|
    decreases |schedule|
  {
    RunStep(Opened(a, b, ca, cb), schedule);
    hide *;
    if schedule == [] {
      OpenedIsAt(a, b, ca, cb);
      ka, kb := 0, 0;
    } else {
      var start := Opened(a, b, ca, cb);
      var last := |schedule| - 1;
      var before := schedule[..last];
      ka, kb := RunIsAt(a, b, ca, cb, before);
      var l := Run(start, before);
      if Effective(start, schedule) {
        EffectiveBefore(start, schedule);
      }
      if (if schedule[last] then l.ab else l.ba) != [] {
        DeliverStep(l, a, b, ca, cb, ka, kb, schedule[last]);
        if schedule[last] {
          kb := kb + 1;
        } else {
          ka := ka + 1;
        }
      }
    }
  }

  /** The handshake cannot stop half way: when both channels are empty, both sides have signed,
      and each has identified the other exactly when their versions and addresses agree or it had
      identified the other before. */
  lemma HandshakeCompletes(a: Side, b: Side, ca: uint32, cb: uint32, schedule: seq<bool>)
    requires Ready(a, b.me.pub) && Ready(b, a.me.pub) && ca != 0 && cb != 0
    requires var l := Run(Opened(a, b, ca, cb), schedule); l.ab == [] && l.ba == []
    ensures var l := Run(Opened(a, b, ca, cb), schedule);
            && l.a.session.state == IS_ALLREQUESTSSEND && l.b.session.state == IS_ALLREQUESTSSEND
            && l.a.session.tcpDest == a.session.tcpDest && l.b.session.tcpDest == b.session.tcpDest
            && (Knows(l.a) <==> Compatible(b, a) || Knows(a))
            && (Knows(l.b) <==> Compatible(a, b) || Knows(b))
  {
    var ka, kb := RunIsAt(a, b, ca, cb, schedule);
    assert ka == SentAfter(b, a, kb) && kb == SentAfter(a, b, ka);
    assert ka == |Stream(b, a, cb, ca)| && kb == |Stream(a, b, ca, cb)|;
    LastStep(a, b, ca, cb);
    LastStep(b, a, cb, ca);
  }

  /** Every order of deliveries comes to that end: after at most six deliveries nothing is left. */
  lemma HandshakeEnds(a: Side, b: Side, ca: uint32, cb: uint32, schedule: seq<bool>)
    requires Ready(a, b.me.pub) && Ready(b, a.me.pub) && ca != 0 && cb != 0
    requires Effective(Opened(a, b, ca, cb), schedule)
    ensures |schedule| <= 6
  {
    var ka, kb := RunIsAt(a, b, ca, cb, schedule);
  }

  /** A peer without the other's key, which it sees under the address `other`; `support` is what the other announces. */
  function Newcomer(pub: Key, own: uint32, other: uint32, support: uint8): Side {
    Side(Me(pub, own, own), Session(IS_UNAVAILABLE, 0, other, support), Credits(0, 0, [], [], NotAvailable, 0, 0, 0))
  }

  /** What a peer with a crypto library announces: versions 1 and 2. */
  const ANNOUNCED: uint8 := 3

  /** When A announces both versions, A always ends up knowing B, whatever B announces; and B knows A unless B announces
      version 2 only and sees A under another address. Two such peers always end up knowing each other. */
  lemma ProgramIsIdentified(a: Side, b: Side, ca: uint32, cb: uint32, schedule: seq<bool>)
    requires Ready(a, b.me.pub) && Ready(b, a.me.pub) && ca != 0 && cb != 0 && b.session.support == ANNOUNCED
    requires var l := Run(Opened(a, b, ca, cb), schedule); l.ab == [] && l.ba == []
    ensures var l := Run(Opened(a, b, ca, cb), schedule);
            && Knows(l.a)
            && (Knows(l.b) <==> a.session.support % 2 == 1 || a.me.publicDest == b.session.tcpDest || Knows(b))
            && (a.session.support == ANNOUNCED ==> Knows(l.b))
  {
    HandshakeCompletes(a, b, ca, cb, schedule);
    hide Run, Opened, Ready, Knows;
  }

  /** A handshake that does not identify: A announces both versions, B only version 2, and B sees A under another
      address than A signs. */
  lemma HandshakeCanFail(schedule: seq<bool>)
    requires var l := Run(Opened(Newcomer([1], 1, 2, 2), Newcomer([2], 2, 9, ANNOUNCED), 1, 1), schedule); l.ab == [] && l.ba == []
    ensures var l := Run(Opened(Newcomer([1], 1, 2, 2), Newcomer([2], 2, 9, ANNOUNCED), 1, 1), schedule);
            Knows(l.a) && !Knows(l.b) && l.b.session.state == IS_ALLREQUESTSSEND
  {
    var a, b := Newcomer([1], 1, 2, 2), Newcomer([2], 2, 9, ANNOUNCED);
    assert Compatible(b, a) && !Compatible(a, b) && !Knows(a) && !Knows(b);
    HandshakeCompletes(a, b, 1, 1, schedule);
  }
}
