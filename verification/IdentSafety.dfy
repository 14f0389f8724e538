/** Any number of peers, sessions and messages in any order: nobody passes for the owner of a key
    who did not sign this peer's challenge with it. */
module IdentSafety {
  import opened Words
  import opened ClientCredits
  import opened Encoding
  import opened SecureIdent

  /** One peer: what it knows of itself, its credit records, and its sessions, each with the
      record it works on. */
  datatype Peer = Peer(me: Me, records: map<nat, Credits>, sessions: map<nat, Session>, recordOf: map<nat, nat>)

  /** A signature and the peer that made it; None for anyone else. */
  datatype Made = Made(maker: Option<nat>, signature: Signature)

  /** All peers; every signature made so far, by whomever; every challenge a peer issued for one of
      its records. */
  datatype World = World(peers: map<nat, Peer>, signed: set<Made>, issued: set<(nat, nat, uint32)>)

  /** A message may come from anyone and carry anything, only a signature must have been made. */
  datatype Step =
    | Deliver(peer: nat, session: nat, message: Message)
    | IssueChallenge(peer: nat, session: nat, random: uint32)
    | ForeignSignature(signature: Signature)
    | NewSession(peer: nat, session: nat, record: nat, start: Session)
    | NewRecord(peer: nat, record: nat, credits: Credits)
    | Traffic(peer: nat, record: nat, event: Event)

  ghost predicate HasSession(w: World, p: nat, s: nat) {
    && p in w.peers && s in w.peers[p].sessions && s in w.peers[p].recordOf
    && w.peers[p].recordOf[s] in w.peers[p].records
  }

  ghost predicate Exists(w: World, g: Signature) {
    exists maker :: Made(maker, g) in w.signed
  }

  /** Only the owner of a key signs with it: foreign signatures use keys that no peer owns. */
  ghost predicate Enabled(w: World, step: Step) {
    match step
    case Deliver(p, s, m) => HasSession(w, p, s) && (m.SignatureOf? ==> Exists(w, m.signature))
    case IssueChallenge(p, s, random) => HasSession(w, p, s)
    case ForeignSignature(g) => forall p :: p in w.peers ==> w.peers[p].me.pub != g.key
    case NewSession(p, s, r, start) => p in w.peers
    case NewRecord(p, r, c) => p in w.peers && r !in w.peers[p].records && Fresh(c)
    case Traffic(p, r, e) => p in w.peers && r in w.peers[p].records && (e.AddDownloaded? || e.AddUploaded?)
  }

  function SignaturesIn(p: nat, out: seq<Message>): set<Made> {
    set m | m in out && m.SignatureOf? :: Made(Some(p), m.signature)
  }

  ghost function Apply(w: World, step: Step): World
    requires Enabled(w, step)
  {
    match step
    case Deliver(p, s, m) =>
      var peer := w.peers[p];
      var r := peer.recordOf[s];
      var (s', c', out) := Handle(peer.me, peer.sessions[s], peer.records[r], m);
      var peer' := peer.(sessions := peer.sessions[s := s'], records := peer.records[r := c']);
      w.(peers := w.peers[p := peer'], signed := w.signed + SignaturesIn(p, out))
    case IssueChallenge(p, s, random) =>
      var peer := w.peers[p];
      var r := peer.recordOf[s];
      var (c', out) := Challenge(peer.me, peer.sessions[s], peer.records[r], random);
      w.(peers := w.peers[p := peer.(records := peer.records[r := c'])],
         issued := if out == [] then w.issued else w.issued + {(p, r, random)})
    case ForeignSignature(g) => w.(signed := w.signed + {Made(None, g)})
    case NewSession(p, s, r, start) =>
      w.(peers := w.peers[p := w.peers[p].(sessions := w.peers[p].sessions[s := start],
                                           recordOf := w.peers[p].recordOf[s := r])])
    case NewRecord(p, r, c) => w.(peers := w.peers[p := w.peers[p].(records := w.peers[p].records[r := c])])
    case Traffic(p, r, e) =>
      w.(peers := w.peers[p := w.peers[p].(records := w.peers[p].records[r := After(w.peers[p].records[r], e)])])
  }

  ghost predicate IsRun(worlds: seq<World>, steps: seq<Step>) {
    && |worlds| == |steps| + 1
    && forall k :: 0 <= k < |steps| ==> Enabled(worlds[k], steps[k]) && worlds[k + 1] == Apply(worlds[k], steps[k])
  }

  ghost predicate Begins(w: World) {
    w.issued == {} && forall p :: p in w.peers ==> w.peers[p].records == map[]
  }

  // ----- safety -----

  /** A signature with the key of the record over this peer's key, a challenge that this peer issued for the record and,
      in version 2, the address that is identified (or the one that goes with the kind of the signature). */
  ghost predicate VouchedBy(w: World, p: nat, r: nat, c: Credits, me: Me, challenge: uint32, kind: uint8) {
    && (p, r, challenge) in w.issued && challenge != 0
    && Exists(w, Signature(c.storedKey, Content(me.pub, challenge, ChallengedIP(me, c.identIP, kind), kind)))
  }

  ghost predicate Vouched(w: World, p: nat, r: nat, c: Credits, me: Me) {
    exists challenge: uint32, kind: uint8 :: VouchedBy(w, p, r, c, me, challenge, kind)
  }

  ghost predicate RecordSafe(w: World, p: nat, r: nat, c: Credits, me: Me) {
    && Consistent(c)
    && (c.challengeFor != 0 ==> (p, r, c.challengeFor) in w.issued)
    && (c.identState == Identified ==> c.key == c.storedKey && Vouched(w, p, r, c, me))
  }

  ghost predicate Safe(w: World) {
    forall p, r :: p in w.peers && r in w.peers[p].records ==>
      RecordSafe(w, p, r, w.peers[p].records[r], w.peers[p].me)
  }

  /** Nothing already safe becomes unsafe when more is signed and issued, and when no more than totals and challenges of
      an identified record change. */
  lemma SafeGrows(w: World, v: World, p: nat, r: nat, c: Credits, d: Credits, me: Me)
    requires RecordSafe(w, p, r, c, me) && w.signed <= v.signed && w.issued <= v.issued
    requires Consistent(d) && (d.challengeFor != 0 ==> (p, r, d.challengeFor) in v.issued)
    requires d.identState == Identified ==> c.identState == Identified && d.storedKey == d.key == c.storedKey && d.identIP == c.identIP
    ensures RecordSafe(v, p, r, d, me)
  {
    if d.identState == Identified {
      var challenge: uint32, kind: uint8 :| VouchedBy(w, p, r, c, me, challenge, kind);
      var g := Signature(c.storedKey, Content(me.pub, challenge, ChallengedIP(me, c.identIP, kind), kind));
      var maker :| Made(maker, g) in w.signed;
      assert Made(maker, g) in v.signed;
      assert VouchedBy(v, p, r, d, me, challenge, kind);
    }
  }

  /** A signature that verifies vouches for the address it was checked for. */
  lemma VerifiedIsVouched(w: World, p: nat, r: nat, me: Me, s: Session, c: Credits, signature: Signature, kind: uint8)
    requires RecordSafe(w, p, r, c, me) && Exists(w, signature)
    requires c.key != [] && c.challengeFor != 0 && Verifies(me, c, signature, s.tcpDest, kind)
    ensures RecordSafe(w, p, r, After(c, Verified(s.tcpDest)), me)
  {
    var d := After(c, Verified(s.tcpDest));
    ConsistentStep(c, Verified(s.tcpDest));
    assert d.storedKey == c.key == d.key && d.identIP == s.tcpDest && d.challengeFor == c.challengeFor;
    hide Content, Consistent;
    assert VouchedBy(w, p, r, d, me, c.challengeFor, kind);
  }

  /** Handling any message keeps the record safe. */
  lemma HandleKeepsSafe(w: World, p: nat, r: nat, me: Me, s: Session, c: Credits, m: Message)
    requires RecordSafe(w, p, r, c, me)
    requires m.SignatureOf? ==> Exists(w, m.signature)
    ensures RecordSafe(w, p, r, Handle(me, s, c, m).1, me)
  {
    var d := Handle(me, s, c, m).1;
    match m {
      case SecIdentState(value, challenge) =>
        SafeGrows(w, w, p, r, c, d, me);
      case PublicKey(key) =>
        SafeGrows(w, w, p, r, c, d, me);
      case SignatureOf(signature, kind) =>
        var k := if kind.Some? then kind.value else 0;
        if d == After(c, Verified(s.tcpDest)) && c.key != [] && c.challengeFor != 0 && Verifies(me, c, signature, s.tcpDest, k) {
          VerifiedIsVouched(w, p, r, me, s, c, signature, k);
        } else {
          SafeGrows(w, w, p, r, c, d, me);
        }
    }
  }

  lemma StepKeepsRecord(w: World, step: Step, p: nat, r: nat)
    requires Safe(w) && Enabled(w, step)
    requires var v := Apply(w, step); p in v.peers && r in v.peers[p].records
    ensures var v := Apply(w, step); RecordSafe(v, p, r, v.peers[p].records[r], v.peers[p].me)
  {
    var v := Apply(w, step);
    var d, me := v.peers[p].records[r], v.peers[p].me;
    if r in w.peers[p].records {
      var c := w.peers[p].records[r];
      assert RecordSafe(w, p, r, c, me);
      if step.Deliver? && p == step.peer && r == w.peers[p].recordOf[step.session] {
        HandleKeepsSafe(w, p, r, me, w.peers[p].sessions[step.session], c, step.message);
        SafeGrows(w, v, p, r, d, d, me);
      } else {
        SafeGrows(w, v, p, r, c, d, me);
      }
    }
  }

  lemma StepKeepsSafe(w: World, step: Step)
    requires Safe(w) && Enabled(w, step)
    ensures Safe(Apply(w, step))
  {
    var v := Apply(w, step);
    forall p, r | p in v.peers && r in v.peers[p].records
      ensures RecordSafe(v, p, r, v.peers[p].records[r], v.peers[p].me)
    {
      StepKeepsRecord(w, step, p, r);
    }
  }

  /** In every reachable world, for a record that counts as identified somebody with its key has signed this peer's own
      key, a nonzero challenge this peer issued for the record and, in a signature of version 2 that tells the signer's
      address, the very address that is identified. */
  lemma {:induction false} IdentifiedMeansSigned(worlds: seq<World>, steps: seq<Step>, p: nat, r: nat)
    requires IsRun(worlds, steps) && Begins(worlds[0])
    requires var w := worlds[|steps|]; p in w.peers && r in w.peers[p].records && w.peers[p].records[r].identState == Identified
    ensures var w := worlds[|steps|]; Vouched(w, p, r, w.peers[p].records[r], w.peers[p].me)
  {
    AlwaysSafe(worlds, steps);
  }

  lemma {:induction false} AlwaysSafe(worlds: seq<World>, steps: seq<Step>)
    requires IsRun(worlds, steps) && Begins(worlds[0])
    ensures Safe(worlds[|steps|])
    decreases |steps|
  {
    if steps != [] {
      var last := |steps| - 1;
      AlwaysSafe(worlds[..last + 1], steps[..last]);
      StepKeepsSafe(worlds[last], steps[last]);
    }
  }

  // ----- who signs -----

  /** A signature of a peer bears its key, and nobody else's signature bears the key of a peer. */
  ghost predicate MadeByOwner(w: World, g: Made) {
    match g.maker
    case Some(p) => p in w.peers && w.peers[p].me.pub == g.signature.key
    case None => forall p :: p in w.peers ==> w.peers[p].me.pub != g.signature.key
  }

  /** What a peer signs for a record: with its own key, the key and the challenge of the record and, in version 2, its
      own address. */
  function SignatureBy(me: Me, c: Credits, v2: bool): Signature {
    Signature(me.pub, Content(c.key, c.challengeFrom, if v2 then me.publicDest else 0, if v2 then CRYPT_CIP_LOCALCLIENT else 0))
  }

  lemma HandleSigns(me: Me, s: Session, c: Credits, m: Message, g: Signature)
    requires exists out :: out in Handle(me, s, c, m).2 && out.SignatureOf? && out.signature == g
    ensures var d := Handle(me, s, c, m).1;
            d.key != [] && (g == SignatureBy(me, d, false) || g == SignatureBy(me, d, true))
  {
    hide Content;
  }

  lemma {:induction false} OwnersSign(worlds: seq<World>, steps: seq<Step>, g: Made)
    requires IsRun(worlds, steps) && worlds[0].signed == {}
    requires g in worlds[|steps|].signed
    ensures MadeByOwner(worlds[|steps|], g)
    decreases |steps|
  {
    var last := |steps| - 1;
    var w := worlds[last];
    if g in w.signed {
      OwnersSign(worlds[..last + 1], steps[..last], g);
    } else if steps[last].Deliver? {
      var peer := w.peers[steps[last].peer];
      HandleSigns(peer.me, peer.sessions[steps[last].session], peer.records[peer.recordOf[steps[last].session]],
                  steps[last].message, g.signature);
    }
  }

  /** At some time of the run this was signed by peer q for one of its records. */
  ghost predicate SignedFor(worlds: seq<World>, q: nat, g: Signature, k: nat, h: nat, v2: bool) {
    && k < |worlds| && q in worlds[k].peers && h in worlds[k].peers[q].records
    && worlds[k].peers[q].records[h].key != []
    && g == SignatureBy(worlds[k].peers[q].me, worlds[k].peers[q].records[h], v2)
  }

  /** A peer signs only what one of its records held at some time. */
  lemma {:induction false} PeersSignWhatTheyHold(worlds: seq<World>, steps: seq<Step>, q: nat, g: Signature)
    returns (k: nat, h: nat, v2: bool)
    requires IsRun(worlds, steps) && worlds[0].signed == {} && Made(Some(q), g) in worlds[|steps|].signed
    ensures SignedFor(worlds, q, g, k, h, v2)
    decreases |steps|
  {
    var last := |steps| - 1;
    var w := worlds[last];
    if Made(Some(q), g) in w.signed {
      k, h, v2 := PeersSignWhatTheyHold(worlds[..last + 1], steps[..last], q, g);
    } else {
      var s, m := steps[last].session, steps[last].message;
      var peer := w.peers[q];
      h := peer.recordOf[s];
      var d := Handle(peer.me, peer.sessions[s], peer.records[h], m).1;
      HandleSigns(peer.me, peer.sessions[s], peer.records[h], m, g);
      k, v2 := last + 1, g == SignatureBy(peer.me, d, true);
    }
  }

  /** Contents with keys of a like length tell their parts; only lengths that differ by 5 can be confused. */
  lemma ContentTellsParts(key: Key, challenge: uint32, ip: uint32, v2: bool, pub: Key, issued: uint32, other: uint32, kind: uint8)
    requires |key| != |pub| + 5 && |pub| != |key| + 5
    requires Content(key, challenge, if v2 then ip else 0, if v2 then CRYPT_CIP_LOCALCLIENT else 0) == Content(pub, issued, other, kind)
    ensures key == pub && challenge == issued && kind == (if v2 then CRYPT_CIP_LOCALCLIENT else 0) && (v2 ==> ip == other)
  {
    var c, d := Content(key, challenge, if v2 then ip else 0, if v2 then CRYPT_CIP_LOCALCLIENT else 0), Content(pub, issued, other, kind);
    var n := |pub|;
    assert |c| == |key| + 4 + if v2 then 5 else 0;
    assert |d| == n + 4 + if kind != 0 then 5 else 0;
    assert |key| == n;
    Limits();
    assert key == c[..n] && pub == d[..n];
    assert LittleEndian(challenge, 4) == c[n..n + 4] && LittleEndian(issued, 4) == d[n..n + 4];
    LittleEndianInjective(challenge, issued, 4);
    if v2 {
      assert c[n + 8] == CRYPT_CIP_LOCALCLIENT && d[n + 8] == kind;
      assert LittleEndian(ip, 4) == c[n + 4..n + 8] && LittleEndian(other, 4) == d[n + 4..n + 8];
      LittleEndianInjective(ip, other, 4);
    }
  }

  /** No peer ever holds a key whose length differs by 5 from n. */
  ghost predicate NoConfusion(worlds: seq<World>, n: nat) {
    forall k, q, h :: 0 <= k < |worlds| && q in worlds[k].peers && h in worlds[k].peers[q].records ==>
      |worlds[k].peers[q].records[h].key| != n + 5 && |worlds[k].peers[q].records[h].key| + 5 != n
  }

  /** In every reachable world, if a record of p counts as identified and its key is that of a peer, then a peer with this
      key had p's own key and p's challenge in one of its records when it signed; and it signed in version 1, or the
      address identified is the one it goes under. Keys of one length are never confused. */
  lemma IdentifiedMeansAnswered(worlds: seq<World>, steps: seq<Step>, p: nat, r: nat, owner: nat)
    returns (q: nat, k: nat, h: nat, v2: bool)
    requires IsRun(worlds, steps) && Begins(worlds[0]) && worlds[0].signed == {}
    requires var w := worlds[|steps|];
             && p in w.peers && r in w.peers[p].records && w.peers[p].records[r].identState == Identified
             && owner in w.peers && w.peers[owner].me.pub == w.peers[p].records[r].storedKey
             && NoConfusion(worlds, |w.peers[p].me.pub|)
    ensures k < |worlds| && q in worlds[k].peers && h in worlds[k].peers[q].records
    ensures var w, held := worlds[|steps|], worlds[k].peers[q].records[h];
            && held.key == w.peers[p].me.pub && held.challengeFrom != 0 && (p, r, held.challengeFrom) in w.issued
            && (v2 ==> w.peers[p].records[r].identIP == worlds[k].peers[q].me.publicDest)
    ensures q in worlds[|steps|].peers && worlds[|steps|].peers[q].me.pub == worlds[|steps|].peers[p].records[r].storedKey
  {
    IdentifiedMeansSigned(worlds, steps, p, r);
    var w := worlds[|steps|];
    var c, me := w.peers[p].records[r], w.peers[p].me;
    var challenge: uint32, kind: uint8 :| VouchedBy(w, p, r, c, me, challenge, kind);
    var g := Signature(c.storedKey, Content(me.pub, challenge, ChallengedIP(me, c.identIP, kind), kind));
    var maker :| Made(maker, g) in w.signed;
    OwnersSign(worlds, steps, Made(maker, g));
    assert MadeByOwner(w, Made(maker, g));
    q := maker.value;
    k, h, v2 := PeersSignWhatTheyHold(worlds, steps, q, g);
    var held := worlds[k].peers[q].records[h];
    hide Content, IsRun;
    ContentTellsParts(held.key, held.challengeFrom, worlds[k].peers[q].me.publicDest, v2, me.pub, challenge,
                      ChallengedIP(me, c.identIP, kind), kind);
  }
}
