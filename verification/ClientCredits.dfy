/** The credits of one remote client and the identity state that guards them. */
module ClientCredits {
  import opened Words
  import opened Arithmetic

  const MAXPUBKEYSIZE: nat := 80

  /** A public key; the empty key stands for none. */
  type Key = seq<uint8>

  datatype IdentState = NotAvailable | IdNeeded | Identified | IdFailed | IdBadGuy

  /** `storedKey` is the key kept on disk, `key` the one in use. */
  datatype Credits = Credits(
    uploaded: uint64,
    downloaded: uint64,
    storedKey: Key,
    key: Key,
    identState: IdentState,
    identIP: uint32,
    challengeFor: uint32,
    challengeFrom: uint32)

  /** An identity holds for the address that was verified; from any other address it is a bad guy's. */
  function CurrentIdentState(c: Credits, forIP: uint32): IdentState {
    if c.identState != Identified then c.identState
    else if forIP == c.identIP then Identified
    else IdBadGuy
  }

  /** Are bytes from this address counted? */
  predicate Counts(c: Credits, forIP: uint32, cryptoAvailable: bool) {
    CurrentIdentState(c, forIP) in {NotAvailable, Identified} || !cryptoAvailable
  }

  /** What can happen to the credits of a client while crypto is available. */
  datatype Event =
    | AddDownloaded(bytes: uint32, ip: uint32)
    | AddUploaded(bytes: uint32, ip: uint32)
    | SetKey(newKey: Key)
    | Verified(ip: uint32)
    | VerifyFailed

  function AfterSetKey(c: Credits, k: Key): Credits {
    if |k| > MAXPUBKEYSIZE || c.storedKey != [] then c
    else c.(key := k, identState := IdNeeded)
  }

  function AfterVerified(c: Credits, ip: uint32): Credits {
    var d := c.(identIP := ip, identState := Identified);
    if c.storedKey != [] then d
    else if c.downloaded > 0 then d.(storedKey := c.key, downloaded := 1, uploaded := 1)
    else d.(storedKey := c.key)
  }

  function AfterVerifyFailed(c: Credits): Credits {
    if c.identState == IdNeeded then c.(identState := IdFailed) else c
  }

  /** A signature is only checked against a key, so a verification needs one (see SecureIdent). */
  predicate Possible(c: Credits, e: Event) {
    e.Verified? ==> c.key != []
  }

  function After(c: Credits, e: Event): Credits {
    match e
    case AddDownloaded(n, ip) => if Counts(c, ip, true) then c.(downloaded := (c.downloaded + n) % TWO64) else c
    case AddUploaded(n, ip) => if Counts(c, ip, true) then c.(uploaded := (c.uploaded + n) % TWO64) else c
    case SetKey(k) => AfterSetKey(c, k)
    case Verified(ip) => AfterVerified(c, ip)
    case VerifyFailed => AfterVerifyFailed(c)
  }

  function AfterAll(c: Credits, es: seq<Event>): Credits
    decreases |es|
  {
    if es == [] then c else After(AfterAll(c, es[..|es| - 1]), es[|es| - 1])
  }

  ghost predicate PossibleRun(c: Credits, es: seq<Event>) {
    forall k :: 0 <= k < |es| ==> Possible(AfterAll(c, es[..k]), es[k])
  }

  /** How credits begin: for an unknown client, or as loaded from disk. */
  predicate Fresh(c: Credits) {
    && c.key == c.storedKey && |c.storedKey| <= MAXPUBKEYSIZE
    && c.identState == (if c.storedKey == [] then NotAvailable else IdNeeded)
    && c.identIP == 0 && c.challengeFor == 0 && c.challengeFrom == 0
  }

  /** What holds of credits at all times. */
  predicate Consistent(c: Credits) {
    && |c.key| <= MAXPUBKEYSIZE && |c.storedKey| <= MAXPUBKEYSIZE
    && (c.storedKey != [] ==> c.key == c.storedKey && c.identState in {IdNeeded, Identified, IdFailed})
    && (c.identState == Identified ==> c.storedKey != []) && c.identState != IdBadGuy
  }

  lemma ConsistentStep(c: Credits, e: Event)
    requires Consistent(c) && Possible(c, e)
    ensures Consistent(After(c, e))
  {
  }

  lemma {:induction false} AlwaysConsistent(c: Credits, es: seq<Event>)
    requires Fresh(c) && PossibleRun(c, es)
    ensures Consistent(AfterAll(c, es))
    decreases |es|
  {
    if es != [] {
      var last := |es| - 1;
      hide After, Consistent, Possible;
      assert forall k :: 0 <= k < last ==> es[..last][..k] == es[..k];
      AlwaysConsistent(c, es[..last]);
      ConsistentStep(AfterAll(c, es[..last]), es[last]);
    }
  }

  /** The address verified last in `es`, or before it. */
  function LastVerified(c: Credits, es: seq<Event>): Option<uint32> {
    if es == [] then if c.identState == Identified then Some(c.identIP) else None
    else if es[|es| - 1].Verified? then Some(es[|es| - 1].ip)
    else LastVerified(c, es[..|es| - 1])
  }

  /** Bytes downloaded (or uploaded) by an address while it was the one verified last. */
  function VerifiedTraffic(c: Credits, es: seq<Event>, download: bool): nat {
    if es == [] then 0
    else
      var before := es[..|es| - 1];
      VerifiedTraffic(c, before, download)
      + match es[|es| - 1] {
          case AddDownloaded(n, ip) => if download && LastVerified(c, before) == Some(ip) then n else 0
          case AddUploaded(n, ip) => if !download && LastVerified(c, before) == Some(ip) then n else 0
          case _ => 0
        }
  }

  /** A 64-bit total after so many more bytes. */
  function Plus(total: uint64, bytes: nat): uint64 {
    (total + bytes) % TWO64
  }

  /** Once a key is stored it stays, it is the key in use, and the identity is that of the address
      verified last. */
  lemma {:induction false} StoredKeyIsForever(c: Credits, es: seq<Event>)
    requires Consistent(c) && c.storedKey != []
    ensures var d := AfterAll(c, es);
            && d.storedKey == c.storedKey && d.key == c.storedKey
            && (LastVerified(c, es).Some? ==> d.identState == Identified && d.identIP == LastVerified(c, es).value)
            && (LastVerified(c, es).None? ==> d.identState in {IdNeeded, IdFailed})
    decreases |es|
  {
    if es != [] {
      StoredKeyIsForever(c, es[..|es| - 1]);
    }
  }

  lemma TrafficStep(d: Credits, e: Event, last: Option<uint32>, down: nat, up: nat, down0: nat, up0: nat)
    requires d.storedKey != []
    requires if last.Some? then d.identState == Identified && d.identIP == last.value else d.identState in {IdNeeded, IdFailed}
    requires d.downloaded == (down0 + down) % TWO64 && d.uploaded == (up0 + up) % TWO64
    ensures After(d, e).downloaded
         == (down0 + (down + if e.AddDownloaded? && last == Some(e.ip) then e.bytes else 0)) % TWO64
    ensures After(d, e).uploaded == (up0 + (up + if e.AddUploaded? && last == Some(e.ip) then e.bytes else 0)) % TWO64
  {
  }

  /** From the moment a key is stored the totals grow by exactly the bytes from the address verified last. */
  lemma {:induction false} OnlyVerifiedBytesCount(c: Credits, es: seq<Event>)
    requires Consistent(c) && c.storedKey != []
    ensures AfterAll(c, es).downloaded == Plus(c.downloaded, VerifiedTraffic(c, es, true))
    ensures AfterAll(c, es).uploaded == Plus(c.uploaded, VerifiedTraffic(c, es, false))
    decreases |es|
  {
    if es != [] {
      var before := es[..|es| - 1];
      OnlyVerifiedBytesCount(c, before);
      StoredKeyIsForever(c, before);
      TrafficStep(AfterAll(c, before), es[|es| - 1], LastVerified(c, before),
                  VerifiedTraffic(c, before, true), VerifiedTraffic(c, before, false), c.downloaded, c.uploaded);
      hide After;
    }
  }

  lemma {:induction false} AfterConcat(c: Credits, es: seq<Event>, more: seq<Event>)
    ensures AfterAll(c, es + more) == AfterAll(AfterAll(c, es), more)
    decreases |more|
  {
    if more == [] {
      assert es + more == es;
    } else {
      var last := |more| - 1;
      assert (es + more)[..|es + more| - 1] == es + more[..last];
      AfterConcat(c, es, more[..last]);
      hide After;
    }
  }

  lemma PrefixIsPossible(c: Credits, es: seq<Event>, n: nat)
    requires PossibleRun(c, es) && n <= |es|
    ensures PossibleRun(c, es[..n])
  {
    assert forall k :: 0 <= k < n ==> es[..n][..k] == es[..k];
  }

  lemma KeyStoredAt(c: Credits, es: seq<Event>, i: nat)
    requires Fresh(c) && PossibleRun(c, es) && i < |es| && es[i].Verified?
    ensures var d := AfterAll(c, es[..i + 1]);
            Consistent(d) && d.storedKey == AfterAll(c, es[..i]).key != []
  {
    var before, run := es[..i], es[..i + 1];
    PrefixIsPossible(c, es, i);
    AlwaysConsistent(c, before);
    assert run[..|run| - 1] == before && run[|run| - 1] == es[i];
    assert Possible(AfterAll(c, es[..i]), es[i]);
    ConsistentStep(AfterAll(c, before), es[i]);
    hide PossibleRun;
  }

  /** In every run from a fresh start that contains a verification, a key is stored from there on: it is the key
      that was in use, it never changes, and the totals are those after the verification and the bytes of the
      address verified last at their time. */
  lemma VerificationSettles(c: Credits, es: seq<Event>, i: nat)
    requires Fresh(c) && PossibleRun(c, es) && i < |es| && es[i].Verified?
    ensures var d, end, more := AfterAll(c, es[..i + 1]), AfterAll(c, es), es[i + 1..];
            && d.storedKey == AfterAll(c, es[..i]).key != []
            && end.storedKey == d.storedKey && end.key == d.storedKey
            && end.downloaded == Plus(d.downloaded, VerifiedTraffic(d, more, true))
            && end.uploaded == Plus(d.uploaded, VerifiedTraffic(d, more, false))
  {
    hide *;
    KeyStoredAt(c, es, i);
    var run, more := es[..i + 1], es[i + 1..];
    assert run + more == es;
    AfterConcat(c, run, more);
    StoredKeyIsForever(AfterAll(c, run), more);
    OnlyVerifiedBytesCount(AfterAll(c, run), more);
  }

  // ----- before the first verification -----

  /** Bytes downloaded (or uploaded) by anybody. */
  function AllTraffic(es: seq<Event>, download: bool): nat {
    if es == [] then 0
    else
      AllTraffic(es[..|es| - 1], download)
      + match es[|es| - 1] {
          case AddDownloaded(n, ip) => if download then n else 0
          case AddUploaded(n, ip) => if download then 0 else n
          case _ => 0
        }
  }

  /** No key that has room in the record is received. */
  ghost predicate NoKey(es: seq<Event>) {
    forall i :: 0 <= i < |es| && es[i].SetKey? ==> |es[i].newKey| > 80
  }

  ghost predicate NoVerification(es: seq<Event>) {
    forall i :: 0 <= i < |es| ==> !es[i].Verified?
  }

  lemma TotalsStep(d: Credits, e: Event, down: nat, up: nat, down0: uint64, up0: uint64)
    requires d.identState == NotAvailable && d.storedKey == [] && !e.Verified? && (e.SetKey? ==> |e.newKey| > 80)
    requires d.downloaded == Plus(down0, down) && d.uploaded == Plus(up0, up)
    ensures var next := After(d, e);
            && next.identState == NotAvailable && next.storedKey == [] && next.key == d.key
            && next.downloaded == Plus(down0, down + if e.AddDownloaded? then e.bytes else 0)
            && next.uploaded == Plus(up0, up + if e.AddUploaded? then e.bytes else 0)
  {
    match e {
      case AddDownloaded(n, ip) => PlusMore(down0, down, n);
      case AddUploaded(n, ip) => PlusMore(up0, up, n);
      case _ =>
    }
    hide Plus;
  }

  lemma PlusMore(total: uint64, n: nat, k: nat)
    ensures (Plus(total, n) + k) % TWO64 == Plus(total, n + k)
  {
    assert TWO64 > 0;
    hide TWO64;
    ModuloPlus(total + n, k, TWO64);
  }

  /** A client without secure identification earns credit for all its bytes, from every address. */
  lemma {:induction false} UnknownClientsEarn(c: Credits, es: seq<Event>)
    requires Fresh(c) && c.storedKey == [] && PossibleRun(c, es) && NoKey(es)
    ensures var d := AfterAll(c, es);
            && d.downloaded == Plus(c.downloaded, AllTraffic(es, true))
            && d.uploaded == Plus(c.uploaded, AllTraffic(es, false))
            && d.identState == NotAvailable && d.storedKey == d.key == []
    decreases |es|
  {
    PlusNothing(c.downloaded);
    PlusNothing(c.uploaded);
    hide After, PossibleRun, Possible, Plus;
    if es != [] {
      var last := |es| - 1;
      var before := es[..last];
      PrefixIsPossible(c, es, last);
      LastIsPossible(c, es);
      UnknownClientsEarn(c, before);
      NotVerifiedWithoutKey(AfterAll(c, before), es[last]);
      TotalsStep(AfterAll(c, before), es[last], AllTraffic(before, true), AllTraffic(before, false), c.downloaded, c.uploaded);
    }
  }

  lemma PlusNothing(total: uint64)
    ensures Plus(total, 0) == total
  {
  }

  lemma LastIsPossible(c: Credits, es: seq<Event>)
    requires PossibleRun(c, es) && es != []
    ensures Possible(AfterAll(c, es[..|es| - 1]), es[|es| - 1])
  {
    hide AfterAll, Possible;
  }

  lemma NotVerifiedWithoutKey(c: Credits, e: Event)
    requires Possible(c, e) && c.key == []
    ensures !e.Verified?
  {
  }

  /** A client whose key waits to be verified earns nothing. */
  lemma {:induction false} WaitingClientsEarnNothing(c: Credits, es: seq<Event>)
    requires c.storedKey == [] && c.identState in {IdNeeded, IdFailed} && NoVerification(es)
    ensures var d := AfterAll(c, es);
            && d.downloaded == c.downloaded && d.uploaded == c.uploaded
            && d.storedKey == [] && d.identState in {IdNeeded, IdFailed}
    decreases |es|
  {
    if es != [] {
      WaitingClientsEarnNothing(c, es[..|es| - 1]);
    }
  }

  /** In every run from a fresh start without a stored key: all bytes count until the first key is received, and none
      from there until a verification. */
  lemma FirstKeyStopsCounting(c: Credits, before: seq<Event>, key: Key, more: seq<Event>)
    requires Fresh(c) && c.storedKey == [] && PossibleRun(c, before) && NoKey(before)
    requires |key| <= 80 && NoVerification(more)
    ensures var d := AfterAll(c, before + [SetKey(key)] + more);
            && d.downloaded == Plus(c.downloaded, AllTraffic(before, true))
            && d.uploaded == Plus(c.uploaded, AllTraffic(before, false))
  {
    UnknownClientsEarn(c, before);
    var first := before + [SetKey(key)];
    assert first[..|first| - 1] == before;
    WaitingClientsEarnNothing(AfterAll(c, first), more);
    AfterConcat(c, first, more);
  }

  lemma IdentityStep(c: Credits, e: Event, last: Option<uint32>)
    requires Consistent(c) && Possible(c, e)
    requires (c.identState == Identified <==> last.Some?) && (last.Some? ==> c.identIP == last.value)
    ensures var now := if e.Verified? then Some(e.ip) else last;
            && (After(c, e).identState == Identified <==> now.Some?) && (now.Some? ==> After(c, e).identIP == now.value)
  {
  }

  lemma {:induction false} IdentityIsLastVerified(c: Credits, es: seq<Event>)
    requires Fresh(c) && PossibleRun(c, es)
    ensures var d := AfterAll(c, es);
            && (d.identState == Identified <==> LastVerified(c, es).Some?)
            && (LastVerified(c, es).Some? ==> d.identIP == LastVerified(c, es).value)
    decreases |es|
  {
    if es != [] {
      var before := es[..|es| - 1];
      assert forall k :: 0 <= k < |before| ==> before[..k] == es[..k];
      AlwaysConsistent(c, before);
      IdentityIsLastVerified(c, before);
      IdentityStep(AfterAll(c, before), es[|es| - 1], LastVerified(c, before));
      hide After, Consistent;
    }
  }

  /** In every run from a fresh start, an address is identified if and only if it was verified last; any
      other address is then a bad guy, and only then. */
  lemma IdentifiedIsLastVerified(c: Credits, es: seq<Event>, ip: uint32)
    requires Fresh(c) && PossibleRun(c, es)
    ensures var d := AfterAll(c, es);
            && (CurrentIdentState(d, ip) == Identified <==> LastVerified(c, es) == Some(ip))
            && (CurrentIdentState(d, ip) == IdBadGuy <==> LastVerified(c, es).Some? && LastVerified(c, es) != Some(ip))
  {
    AlwaysConsistent(c, es);
    IdentityIsLastVerified(c, es);
    hide AfterAll;
  }

  /** The first verification fixes the key; a client that had download credit starts again from one byte. */
  lemma FirstVerification(c: Credits, ip: uint32)
    requires Consistent(c) && c.storedKey == [] && c.key != []
    ensures var d := After(c, Verified(ip));
            && d.storedKey == c.key && CurrentIdentState(d, ip) == Identified
            && (c.downloaded > 0 ==> d.downloaded == 1 && d.uploaded == 1)
            && (c.downloaded == 0 ==> d.downloaded == 0 && d.uploaded == c.uploaded)
            && (forall k: Key :: AfterSetKey(d, k) == d)
            && (forall other: uint32 :: other != ip ==> !Counts(d, other, true))
  {
  }

  class ClientCredits {
    var uploaded: uint64
    var downloaded: uint64
    var lastSeen: uint32
    var storedKey: Key
    var publicKey: Key
    var identState: IdentState
    var identIP: uint32
    var cryptRndChallengeFor: uint32
    var cryptRndChallengeFrom: uint32

    function View(): Credits
      reads this
    {
      Credits(uploaded, downloaded, storedKey, publicKey, identState, identIP, cryptRndChallengeFor, cryptRndChallengeFrom)
    }

    /** For a client not known before. */
    constructor ForUnknown()
      ensures Fresh(View()) && View() == Credits(0, 0, [], [], NotAvailable, 0, 0, 0) && lastSeen == 0
    {
      uploaded, downloaded, lastSeen := 0, 0, 0;
      storedKey, publicKey := [], [];
      identState, identIP := NotAvailable, 0;
      cryptRndChallengeFor, cryptRndChallengeFrom := 0, 0;
    }

    /** As found on disk. */
    constructor FromFile(uploaded: uint64, downloaded: uint64, lastSeen: uint32, key: Key)
      requires |key| <= MAXPUBKEYSIZE
      ensures Fresh(View()) && this.lastSeen == lastSeen
      ensures View() == Credits(uploaded, downloaded, key, key, if key == [] then NotAvailable else IdNeeded, 0, 0, 0)
    {
      this.uploaded, this.downloaded, this.lastSeen := uploaded, downloaded, lastSeen;
      storedKey, publicKey := key, key;
      identState := if key == [] then NotAvailable else IdNeeded;
      identIP := 0;
      cryptRndChallengeFor, cryptRndChallengeFrom := 0, 0;
    }

    function GetCurrentIdentState(forIP: uint32): IdentState
      reads this
    {
      CurrentIdentState(View(), forIP)
    }

    method AddDownloaded(bytes: uint32, forIP: uint32, cryptoAvailable: bool)
      modifies `downloaded
      ensures downloaded == if Counts(old(View()), forIP, cryptoAvailable) then (old(downloaded) + bytes) % TWO64 else old(downloaded)
      ensures cryptoAvailable ==> View() == After(old(View()), Event.AddDownloaded(bytes, forIP))
      ensures var counts := !cryptoAvailable || old(identState) == NotAvailable
                            || (old(identState) == Identified && old(identIP) == forIP);
              downloaded == if counts then (old(downloaded) + bytes) % TWO64 else old(downloaded)
    {
      match GetCurrentIdentState(forIP) {
        case IdFailed | IdBadGuy | IdNeeded =>
          if cryptoAvailable {
            return;
          }
        case NotAvailable | Identified =>
      }
      downloaded := (downloaded + bytes) % TWO64;
    }

    method AddUploaded(bytes: uint32, forIP: uint32, cryptoAvailable: bool)
      modifies `uploaded
      ensures uploaded == if Counts(old(View()), forIP, cryptoAvailable) then (old(uploaded) + bytes) % TWO64 else old(uploaded)
      ensures cryptoAvailable ==> View() == After(old(View()), Event.AddUploaded(bytes, forIP))
      ensures var counts := !cryptoAvailable || old(identState) == NotAvailable
                            || (old(identState) == Identified && old(identIP) == forIP);
              uploaded == if counts then (old(uploaded) + bytes) % TWO64 else old(uploaded)
    {
      match GetCurrentIdentState(forIP) {
        case IdFailed | IdBadGuy | IdNeeded =>
          if cryptoAvailable {
            return;
          }
        case NotAvailable | Identified =>
      }
      uploaded := (uploaded + bytes) % TWO64;
    }

    method Verified(forIP: uint32)
      modifies `identIP, `storedKey, `downloaded, `uploaded, `identState
      ensures View() == After(old(View()), Event.Verified(forIP))
      ensures identState == Identified && identIP == forIP
      ensures storedKey == if old(storedKey) == [] then publicKey else old(storedKey)
      ensures var again := old(storedKey) == [] && old(downloaded) > 0;
              && downloaded == (if again then 1 else old(downloaded)) && uploaded == (if again then 1 else old(uploaded))
    {
      identIP := forIP;
      if |storedKey| == 0 {
        storedKey := publicKey;
        if downloaded > 0 {
          downloaded := 1;
          uploaded := 1;
        }
      }
      identState := Identified;
    }

    /** A verified key cannot be replaced. */
    method SetSecureIdent(ident: Key) returns (ok: bool)
      modifies `publicKey, `identState
      ensures ok <==> |ident| <= 80 && storedKey == []
      ensures publicKey == (if ok then ident else old(publicKey)) && identState == (if ok then IdNeeded else old(identState))
      ensures View() == After(old(View()), SetKey(ident))
    {
      if MAXPUBKEYSIZE < |ident| || |storedKey| != 0 {
        return false;
      }
      publicKey := ident;
      identState := IdNeeded;
      return true;
    }
  }
}
