/** Secure identification: each side challenges the other to sign its public key with a random
    number. Signatures are ideal: one verifies exactly when its maker's key and the signed bytes
    are the expected ones. Addresses are the 32-bit values the source compares, 0 for none. */
module SecureIdent {
  import opened Words
  import opened ClientCredits
  import opened Encoding

  const IS_UNAVAILABLE: nat := 0
  const IS_ALLREQUESTSSEND: nat := 0
  const IS_SIGNATURENEEDED: nat := 1
  const IS_KEYANDSIGNEEDED: nat := 2

  const CRYPT_CIP_REMOTECLIENT: nat := 10
  const CRYPT_CIP_LOCALCLIENT: nat := 20
  const CRYPT_CIP_NONECLIENT: nat := 30

  /** A signature made with the private half of `key` over `content`. */
  datatype Signature = Signature(key: Key, content: seq<uint8>)

  /** The three packets. A version 2 signature packet carries one more byte, the kind. */
  datatype Message =
    | SecIdentState(value: uint8, challenge: uint32)
    | PublicKey(key: Key)
    | SignatureOf(signature: Signature, kind: Option<uint8>)

  /** What a peer knows of itself: its key (empty without crypto), the address others see it under,
      and what it takes for its address when it is asked for its own view. */
  datatype Me = Me(pub: Key, publicDest: uint32, localIP: uint32)

  /** The part of a client object that takes part in the identification. */
  datatype Session = Session(state: uint8, lastSignatureDest: uint32, tcpDest: uint32, support: uint8)

  predicate CryptoAvailable(me: Me) { me.pub != [] }

  /** The bytes to sign: a public key, the challenge and, in version 2, an address and its kind. */
  function Content(key: Key, challenge: uint32, ip: uint32, kind: uint8): seq<uint8> {
    key + LittleEndian(challenge, 4) + if kind != 0 then LittleEndian(ip, 4) + [kind] else []
  }

  // ----- the steps, as functions of what they read -----

  /** SendPublicKeyPacket: answers a request for the key. */
  function SendPublicKey(me: Me, s: Session): (Session, seq<Message>) {
    if s.state != IS_KEYANDSIGNEEDED || !CryptoAvailable(me) then (s, [])
    else (s.(state := IS_SIGNATURENEEDED), [PublicKey(me.pub)])
  }

  /** SendSignaturePacket: signs the key of the other side with its challenge, if both are known. */
  function SendSignature(me: Me, s: Session, c: Credits): (Session, seq<Message>) {
    if s.state == IS_UNAVAILABLE || !CryptoAvailable(me) || c.key == [] || c.challengeFrom == 0 then (s, [])
    else
      var useV2 := s.support % 2 != 1;
      var kind := if useV2 then CRYPT_CIP_LOCALCLIENT else 0;
      var ip := if useV2 then me.publicDest else 0;
      var signature := Signature(me.pub, Content(c.key, c.challengeFrom, ip, kind));
      (s.(state := IS_ALLREQUESTSSEND), [SignatureOf(signature, if useV2 then Some(kind) else None)])
  }

  /** The packet OP_SECIDENTSTATE: notes what is wanted and answers at once as far as possible. */
  function OnSecIdentState(me: Me, s: Session, c: Credits, value: uint8, challenge: uint32): (Session, Credits, seq<Message>) {
    if value > 2 then
      // the packet is refused, but the old request is looked at again
      var (s', out) := Answer(me, s, c);
      (s', c, out)
    else
      var c' := c.(challengeFrom := challenge);
      var (s', out) := Answer(me, s.(state := value), c');
      (s', c', out)
  }

  function Answer(me: Me, s: Session, c: Credits): (Session, seq<Message>) {
    if s.state == IS_SIGNATURENEEDED then SendSignature(me, s, c)
    else if s.state == IS_KEYANDSIGNEEDED then
      var (s', key) := SendPublicKey(me, s);
      var (s'', signature) := SendSignature(me, s', c);
      (s'', key + signature)
    else (s, [])
  }

  /** The packet OP_PUBLICKEY: a signature that waited for the key is sent now. */
  function OnPublicKey(me: Me, s: Session, c: Credits, key: Key): (Session, Credits, seq<Message>) {
    if !CryptoAvailable(me) || |key| > 249 then (s, c, [])
    else if |key| > MAXPUBKEYSIZE || c.storedKey != [] then (s, c, [])
    else
      var c' := After(c, SetKey(key));
      if s.state != IS_SIGNATURENEEDED then (s, c', [])
      else
        var (s', out) := SendSignature(me, s, c');
        (s', c', out)
  }

  /** The address a version 2 signature must contain. */
  function ChallengedIP(me: Me, dest: uint32, kind: uint8): uint32 {
    if kind == CRYPT_CIP_LOCALCLIENT then dest
    else if kind == CRYPT_CIP_REMOTECLIENT then me.localIP
    else 0
  }

  predicate Verifies(me: Me, c: Credits, signature: Signature, dest: uint32, kind: uint8) {
    signature == Signature(c.key, Content(me.pub, c.challengeFor, ChallengedIP(me, dest, kind), kind))
  }

  /** The packet OP_SIGNATURE: checked once per address, with a known key and an own challenge. */
  function OnSignature(me: Me, s: Session, c: Credits, signature: Signature, kind: Option<uint8>): (Session, Credits) {
    if kind.Some? && s.support / 2 % 2 == 0 then (s, c)
    else if !CryptoAvailable(me) || s.lastSignatureDest == s.tcpDest || c.key == [] || c.challengeFor == 0 then (s, c)
    else
      var k := if kind.Some? then kind.value else 0;
      (s.(lastSignatureDest := s.tcpDest),
       if Verifies(me, c, signature, s.tcpDest, k) then After(c, Verified(s.tcpDest)) else After(c, VerifyFailed))
  }

  /** A signature is looked at once per address: after that no other counts, and the peer is not asked again. */
  lemma OneCheckPerAddress(me: Me, s: Session, c: Credits, signature: Signature, kind: Option<uint8>,
                           later: Signature, laterKind: Option<uint8>, random: uint32)
    requires OnSignature(me, s, c, signature, kind) != (s, c) && Consistent(c)
    ensures var (t, d) := OnSignature(me, s, c, signature, kind);
            && t.lastSignatureDest == s.tcpDest == t.tcpDest && t.state == s.state && t.support == s.support
            && OnSignature(me, t, d, later, laterKind) == (t, d)
            && Challenge(me, t, d, random) == (d, [])
  {
    hide Content;
  }

  /** What is checked: a signature of a version that is understood, with a known key and an own challenge, from an address
      that was not checked; it is taken exactly when it is the key's over the own key, the challenge and the address. */
  lemma SignatureTells(me: Me, s: Session, c: Credits, signature: Signature, kind: Option<uint8>)
    ensures var (t, d) := OnSignature(me, s, c, signature, kind);
            var looks := (kind.None? || s.support / 2 % 2 == 1) && me.pub != [] && s.lastSignatureDest != s.tcpDest
                         && c.key != [] && c.challengeFor != 0;
            && (!looks ==> (t, d) == (s, c))
            && (looks ==> t == s.(lastSignatureDest := s.tcpDest))
            && (looks && (kind.None? || kind.value == 0) ==>
                  d == After(c, if signature == Signature(c.key, me.pub + LittleEndian(c.challengeFor, 4)) then Verified(s.tcpDest)
                                else VerifyFailed))
            && (looks && kind == Some(20) ==>
                  d == After(c, if signature == Signature(c.key, me.pub + LittleEndian(c.challengeFor, 4)
                                                                 + (LittleEndian(s.tcpDest, 4) + [20])) then Verified(s.tcpDest)
                                else VerifyFailed))
            && (looks && kind == Some(10) ==>
                  d == After(c, if signature == Signature(c.key, me.pub + LittleEndian(c.challengeFor, 4)
                                                                 + (LittleEndian(me.localIP, 4) + [10])) then Verified(s.tcpDest)
                                else VerifyFailed))
            && (looks && kind == Some(30) ==>
                  d == After(c, if signature == Signature(c.key, me.pub + LittleEndian(c.challengeFor, 4)
                                                                 + (LittleEndian(0, 4) + [30])) then Verified(s.tcpDest)
                                else VerifyFailed))
  {
    hide After, LittleEndian;
    assert me.pub + LittleEndian(c.challengeFor, 4) + [] == me.pub + LittleEndian(c.challengeFor, 4);
  }

  /** What is asked: the key and a signature (2) without a key, a signature (1) from an address that was not checked. */
  lemma ChallengeTells(me: Me, s: Session, c: Credits, random: uint32)
    ensures var (d, out) := Challenge(me, s, c, random);
            if me.pub != [] && c.key == [] then out == [SecIdentState(2, random)] && d == c.(challengeFor := random)
            else if me.pub != [] && s.lastSignatureDest != s.tcpDest then
              out == [SecIdentState(1, random)] && d == c.(challengeFor := random)
            else out == [] && d == c
  {
  }

  /** What is signed: the other's key, its challenge and, only if the other announces no version 1, the own address. */
  lemma AnswerTells(me: Me, s: Session, c: Credits)
    ensures var (t, out) := SendSignature(me, s, c);
            if s.state == 0 || me.pub == [] || c.key == [] || c.challengeFrom == 0 then t == s && out == []
            else
              && t == s.(state := 0)
              && (s.support % 2 == 1 ==>
                    out == [SignatureOf(Signature(me.pub, c.key + LittleEndian(c.challengeFrom, 4)), None)])
              && (s.support % 2 == 0 ==>
                    out == [SignatureOf(Signature(me.pub, c.key + LittleEndian(c.challengeFrom, 4)
                                                          + (LittleEndian(me.publicDest, 4) + [20])), Some(20))])
  {
    hide LittleEndian;
    assert c.key + LittleEndian(c.challengeFrom, 4) + [] == c.key + LittleEndian(c.challengeFrom, 4);
  }

  /** What a request does: 1 asks for a signature, 2 for the key too, 0 for nothing. */
  lemma RequestTells(me: Me, s: Session, c: Credits, value: uint8, challenge: uint32)
    ensures var (t, d, out) := OnSecIdentState(me, s, c, value, challenge);
            var asked := c.(challengeFrom := challenge);
            var (t1, signature) := SendSignature(me, s.(state := 1), asked);
            && (value == 0 ==> (t, d, out) == (s.(state := 0), asked, []))
            && (value == 1 ==> (t, d, out) == (t1, asked, signature))
            && (value == 2 && me.pub != [] ==> (t, d, out) == (t1, asked, [PublicKey(me.pub)] + signature))
            && (value == 2 && me.pub == [] ==> (t, d, out) == (s.(state := 2), asked, []))
  {
    var none: seq<Message> := [];
    assert none + none == none;
    hide LittleEndian;
  }

  /** Any other value leaves the last request and the last challenge in force. */
  lemma OtherRequestTells(me: Me, s: Session, c: Credits, value: uint8, challenge: uint32)
    requires value > 2 && s.state <= 2
    ensures OnSecIdentState(me, s, c, value, challenge) == OnSecIdentState(me, s, c, s.state, c.challengeFrom)
  {
    assert s.(state := s.state) == s && c.(challengeFrom := c.challengeFrom) == c;
    hide LittleEndian, Answer;
  }

  /** What a key does: it is taken if it fits and none is stored, and a signature that waited for it goes out. */
  lemma KeyTells(me: Me, s: Session, c: Credits, key: Key)
    ensures var (t, d, out) := OnPublicKey(me, s, c, key);
            if me.pub == [] || |key| > 80 || c.storedKey != [] then (t, d, out) == (s, c, [])
            else
              && d == c.(key := key, identState := IdNeeded)
              && (s.state != 1 ==> t == s && out == [])
              && (s.state == 1 ==> (t, out) == SendSignature(me, s, d))
  {
    hide LittleEndian;
  }

  function Handle(me: Me, s: Session, c: Credits, m: Message): (Session, Credits, seq<Message>) {
    match m
    case SecIdentState(value, challenge) => OnSecIdentState(me, s, c, value, challenge)
    case PublicKey(key) => OnPublicKey(me, s, c, key)
    case SignatureOf(signature, kind) =>
      var (s', c') := OnSignature(me, s, c, signature, kind);
      (s', c', [])
  }

  /** SendSecIdentStatePacket: asks for the key too when it is not known, and for nothing when the
      address has signed already. `random` is never zero. */
  function Challenge(me: Me, s: Session, c: Credits, random: uint32): (Credits, seq<Message>) {
    var value :=
      if !CryptoAvailable(me) then 0
      else if c.key == [] then IS_KEYANDSIGNEEDED
      else if s.lastSignatureDest != s.tcpDest then IS_SIGNATURENEEDED
      else 0;
    if value == 0 then (c, [])
    else (c.(challengeFor := random), [SecIdentState(value, random)])
  }
}
