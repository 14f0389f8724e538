/** Every history of transfers and verifications, against a ledger that knows only the calls. */
module BlackBoxRuns {
  import opened Words
  import opened BlackBoxSpec
  import opened CorruptionBlackBox

  datatype Call =
    | Transferred(start: uint64, end: uint64, ip: uint32)
    | Verified(ok: bool, part: uint16, lo: uint32, hi: uint32)

  /** Positions lie inside a file, and a transfer reaches less than 2^32 bytes past the start of its part. */
  predicate Allowed(c: Call) {
    match c
    case Transferred(start, end, ip) => end < MAX_FILE_SIZE && (start > end || Fits(start, end))
    case Verified(ok, part, lo, hi) => true
  }

  /** What the methods of CorruptionBlackBox promise of one call. */
  ghost predicate Does(v: Ledger, c: Call, w: Ledger) {
    match c
    case Transferred(start, end, ip) => if start > end then w == v else Attributes(v, start, end, ip, w)
    case Verified(ok, part, lo, hi) => if lo > hi then w == v else Verifies(v, ok, part, lo, hi, w)
  }

  ghost predicate IsRun(calls: seq<Call>, ledgers: seq<Ledger>) {
    && |ledgers| == |calls| + 1
    && ledgers[0] == Ledger(map[], map[], map[])
    && forall k :: 0 <= k < |calls| ==> Allowed(calls[k]) && Does(ledgers[k], calls[k], ledgers[k + 1])
  }

  // ----- the ledger of calls -----

  /** How often the byte at `offset` of `part` stands to the account of `ip`. */
  ghost function Attribution(calls: seq<Call>, part: uint16, offset: nat, ip: uint32): nat {
    if calls == [] then 0
    else
      var n := Attribution(calls[..|calls| - 1], part, offset, ip);
      match calls[|calls| - 1]
      case Transferred(start, end, q) => if q == ip && Within(start, end, part, offset) then n + 1 else n
      case Verified(ok, p, lo, hi) => if p == part && lo <= offset <= hi then 0 else n
  }

  ghost function Attributions(calls: seq<Call>, part: uint16, ip: uint32, lo: nat, hi: nat): nat
    decreases hi
  {
    if hi <= lo then 0 else Attributions(calls, part, ip, lo, hi - 1) + Attribution(calls, part, hi - 1, ip)
  }

  /** The bytes found good (or corrupt) that stood to the account of `ip` when they were verified. */
  ghost function VerifiedBytes(calls: seq<Call>, ok: bool, ip: uint32): nat {
    if calls == [] then 0
    else
      var before := calls[..|calls| - 1];
      VerifiedBytes(before, ok, ip)
      + match calls[|calls| - 1] {
          case Verified(k, p, lo, hi) => if k == ok && lo <= hi then Attributions(before, p, ip, lo, hi + 1) else 0
          case _ => 0
        }
  }

  ghost function TransferredBytes(calls: seq<Call>, ip: uint32): nat {
    if calls == [] then 0
    else
      TransferredBytes(calls[..|calls| - 1], ip)
      + match calls[|calls| - 1] {
          case Transferred(start, end, q) => if q == ip && start <= end then end - start + 1 else 0
          case _ => 0
        }
  }

  /** The bytes that stand to the account of `ip` in the parts below `parts`, at offsets below `span`. */
  ghost function Standing(calls: seq<Call>, ip: uint32, parts: nat, span: nat): nat
    requires parts <= TWO16
    decreases parts
  {
    if parts == 0 then 0
    else Standing(calls, ip, parts - 1, span) + Attributions(calls, parts - 1, ip, 0, span)
  }

  // ----- the lists say exactly what the calls say -----

  lemma {:induction false} ListsAreExact(calls: seq<Call>, ledgers: seq<Ledger>, part: uint16, offset: nat, ip: uint32)
    requires IsRun(calls, ledgers)
    ensures Count(List(ledgers[|calls|].records, part), offset, ip) == Attribution(calls, part, offset, ip)
    decreases |calls|
  {
    if calls != [] {
      var last := |calls| - 1;
      ListsAreExact(calls[..last], ledgers[..last + 1], part, offset, ip);
      assert Does(ledgers[last], calls[last], ledgers[last + 1]);
    }
  }

  lemma {:induction false} BytesAreExact(calls: seq<Call>, ledgers: seq<Ledger>, part: uint16, ip: uint32, lo: nat, hi: nat)
    requires IsRun(calls, ledgers)
    ensures CountRange(List(ledgers[|calls|].records, part), ip, lo, hi) == Attributions(calls, part, ip, lo, hi)
    decreases hi
  {
    if hi > lo {
      BytesAreExact(calls, ledgers, part, ip, lo, hi - 1);
      ListsAreExact(calls, ledgers, part, hi - 1, ip);
    }
  }

  lemma AccountStep(v: Ledger, c: Call, w: Ledger, ip: uint32, removed: nat)
    requires c.Verified? && c.lo <= c.hi && Verifies(v, c.ok, c.part, c.lo, c.hi, w)
    requires removed == BytesOf(List(v.records, c.part), ip, c.lo, c.hi)
    ensures Credit(w.good, ip) == Credit(v.good, ip) + if c.ok then removed else 0
    ensures Credit(w.bad, ip) == Credit(v.bad, ip) + if c.ok then 0 else Blame(List(v.records, c.part), ip, c.lo, c.hi)
  {
    hide TakenOut, BytesOf;
    assert BytesOf([], ip, c.lo, c.hi) == 0 by { NothingRecorded(c.lo, c.hi); }
  }

  /** The blame of all verifications that found corrupt data, over the lists each of them found. */
  ghost function BlameInRun(calls: seq<Call>, ledgers: seq<Ledger>, ip: uint32): nat
    requires |ledgers| == |calls| + 1
    decreases |calls|
  {
    if calls == [] then 0
    else
      var last := |calls| - 1;
      BlameInRun(calls[..last], ledgers[..last + 1], ip)
      + match calls[last] {
          case Verified(ok, part, lo, hi) =>
            if ok || lo > hi then 0 else Blame(List(ledgers[last].records, part), ip, lo, hi)
          case _ => 0
        }
  }

  /** Good credit is exactly the bytes found good; blame is exactly that of the records found corrupt, which is at least
      the bytes found corrupt and at most one block for each of them. */
  lemma RunsPrefix(calls: seq<Call>, ledgers: seq<Ledger>)
    requires IsRun(calls, ledgers) && calls != []
    ensures IsRun(calls[..|calls| - 1], ledgers[..|calls|])
    ensures Does(ledgers[|calls| - 1], calls[|calls| - 1], ledgers[|calls|])
    ensures ledgers[..|calls|][|calls| - 1] == ledgers[|calls| - 1]
  {
    hide Does, Allowed;
  }

  /** One call books what it finds verified, and nothing else. */
  lemma CallBooks(calls: seq<Call>, ledgers: seq<Ledger>, ip: uint32)
    requires IsRun(calls, ledgers) && calls != []
    ensures var last := |calls| - 1;
            var before, v, w := calls[..last], ledgers[last], ledgers[last + 1];
            match calls[last]
            case Transferred(_, _, _) => w.good == v.good && w.bad == v.bad
            case Verified(ok, part, lo, hi) =>
              if lo > hi then w == v
              else
                var n := Attributions(before, part, ip, lo, hi + 1);
                var blame := Blame(List(v.records, part), ip, lo, hi);
                && Credit(w.good, ip) == Credit(v.good, ip) + (if ok then n else 0)
                && Credit(w.bad, ip) == Credit(v.bad, ip) + (if ok then 0 else blame)
                && n <= blame <= 184_320 * n
  {
    RunsPrefix(calls, ledgers);
    hide IsRun, Verifies, Attribution, Attributions, Blame, BytesOf, CountRange, Allowed;
    var last := |calls| - 1;
    match calls[last] {
      case Transferred(_, _, _) =>
      case Verified(ok, part, lo, hi) =>
        if lo <= hi {
          var list := List(ledgers[last].records, part);
          BytesAreExact(calls[..last], ledgers[..last + 1], part, ip, lo, hi + 1);
          BlameIsBounded(list, ip, lo, hi);
          assert BytesOf(list, ip, lo, hi) == CountRange(list, ip, lo, hi + 1) by { BytesAreCounted(list, ip, lo, hi); }
          AccountStep(ledgers[last], calls[last], ledgers[last + 1], ip, Attributions(calls[..last], part, ip, lo, hi + 1));
        }
    }
  }

  lemma BytesAreCounted(list: seq<Record>, ip: uint32, lo: nat, hi: nat)
    ensures BytesOf(list, ip, lo, hi) == CountRange(list, ip, lo, hi + 1)
  {
  }

  lemma {:induction false} AccountsAreExact(calls: seq<Call>, ledgers: seq<Ledger>, ip: uint32)
    requires IsRun(calls, ledgers)
    ensures Credit(ledgers[|calls|].good, ip) == VerifiedBytes(calls, true, ip)
    ensures Credit(ledgers[|calls|].bad, ip) == BlameInRun(calls, ledgers, ip)
    ensures VerifiedBytes(calls, false, ip) <= Credit(ledgers[|calls|].bad, ip) <= 184_320 * VerifiedBytes(calls, false, ip)
    decreases |calls|
  {
    if calls != [] {
      var last := |calls| - 1;
      RunsPrefix(calls, ledgers);
      CallBooks(calls, ledgers, ip);
      hide IsRun, Does, Attributions, Blame;
      AccountsAreExact(calls[..last], ledgers[..last + 1], ip);
    }
  }

  // ----- the calls decide everything -----

  lemma StoredGood(records: map<uint16, seq<Record>>, start: nat, end: nat, ip: uint32, part: uint16)
    requires GoodRecords(List(records, part))
    ensures GoodRecords(Stored(records, start, end, ip, part))
  {
    var base := part * PARTSIZE;
    var from, to := if start < base then 0 else start - base, if end < base + PARTSIZE then end - base else PARTSIZE - 1;
    if from <= to && from < PARTSIZE {
      JoinedGood(List(records, part), from, to, ip);
    }
    hide GoodRecords, Joined;
  }

  /** The list of a part after a call. */
  function ListAfter(c: Call, records: map<uint16, seq<Record>>, part: uint16): seq<Record>
    requires GoodRecords(List(records, part))
  {
    match c
    case Transferred(start, end, ip) => if start > end then List(records, part) else Stored(records, start, end, ip, part)
    case Verified(ok, p, lo, hi) =>
      if lo > hi || p != part then List(records, part) else Trimmed(List(records, part), lo, hi)
  }

  lemma {:induction false} ListsFollow(calls: seq<Call>, ledgers: seq<Ledger>, part: uint16)
    requires IsRun(calls, ledgers)
    ensures GoodRecords(List(ledgers[|calls|].records, part))
    decreases |calls|
  {
    if calls != [] {
      var last := |calls| - 1;
      RunsPrefix(calls, ledgers);
      ListsFollow(calls[..last], ledgers[..last + 1], part);
      hide IsRun, GoodRecords, TakenOut, CreditedSum, BlamedSum;
      match calls[last] {
        case Transferred(start, end, ip) =>
          StoredGood(ledgers[last].records, start, end, ip, part);
        case Verified(ok, p, lo, hi) =>
          if lo <= hi {
            TrimmedGood(List(ledgers[last].records, part), lo, hi);
          }
      }
    }
  }

  lemma ListStep(calls: seq<Call>, ledgers: seq<Ledger>, part: uint16)
    requires IsRun(calls, ledgers) && calls != []
    requires GoodRecords(List(ledgers[|calls| - 1].records, part))
    ensures List(ledgers[|calls|].records, part) == ListAfter(calls[|calls| - 1], ledgers[|calls| - 1].records, part)
  {
    RunsPrefix(calls, ledgers);
    hide IsRun, GoodRecords, TakenOut, CreditedSum, BlamedSum, Stored, Trimmed;
  }

  lemma {:induction false} ListsAreDetermined(calls: seq<Call>, one: seq<Ledger>, two: seq<Ledger>, part: uint16)
    requires IsRun(calls, one) && IsRun(calls, two)
    ensures List(one[|calls|].records, part) == List(two[|calls|].records, part)
    decreases |calls|
  {
    if calls != [] {
      var last := |calls| - 1;
      RunsPrefix(calls, one);
      RunsPrefix(calls, two);
      ListsAreDetermined(calls[..last], one[..last + 1], two[..last + 1], part);
      ListsFollow(calls[..last], one[..last + 1], part);
      hide IsRun, GoodRecords, Does, Trimmed, Joined;
      ListStep(calls, one, part);
      ListStep(calls, two, part);
    }
  }

  lemma {:induction false} BlameIsDetermined(calls: seq<Call>, one: seq<Ledger>, two: seq<Ledger>, ip: uint32)
    requires IsRun(calls, one) && IsRun(calls, two)
    ensures BlameInRun(calls, one, ip) == BlameInRun(calls, two, ip)
    decreases |calls|
  {
    if calls != [] {
      var last := |calls| - 1;
      RunsPrefix(calls, one);
      RunsPrefix(calls, two);
      hide IsRun, Does, Blame;
      BlameIsDetermined(calls[..last], one[..last + 1], two[..last + 1], ip);
      if calls[last].Verified? {
        ListsAreDetermined(calls[..last], one[..last + 1], two[..last + 1], calls[last].part);
      }
    }
  }

  /** Whatever way the calls were carried out, the same calls lead to the same lists, record by record, and the same
      accounts: how stretches are joined and cut decides the blame, and it is decided by the calls alone. */
  lemma RunsAreDetermined(calls: seq<Call>, one: seq<Ledger>, two: seq<Ledger>, part: uint16, ip: uint32)
    requires IsRun(calls, one) && IsRun(calls, two)
    ensures List(one[|calls|].records, part) == List(two[|calls|].records, part)
    ensures Credit(one[|calls|].good, ip) == Credit(two[|calls|].good, ip)
    ensures Credit(one[|calls|].bad, ip) == Credit(two[|calls|].bad, ip)
  {
    ListsAreDetermined(calls, one, two, part);
    AccountsAreExact(calls, one, ip);
    AccountsAreExact(calls, two, ip);
    BlameIsDetermined(calls, one, two, ip);
  }

  // ----- conservation -----

  lemma {:induction false} AttributionsSame(calls: seq<Call>, more: seq<Call>, part: uint16, ip: uint32, lo: nat, hi: nat)
    requires forall o :: lo <= o < hi ==> Attribution(more, part, o, ip) == Attribution(calls, part, o, ip)
    ensures Attributions(more, part, ip, lo, hi) == Attributions(calls, part, ip, lo, hi)
    decreases hi
  {
    if lo < hi {
      AttributionsSame(calls, more, part, ip, lo, hi - 1);
    }
  }

  lemma {:induction false} AttributionsNone(calls: seq<Call>, part: uint16, ip: uint32, lo: nat, hi: nat)
    requires forall o :: lo <= o < hi ==> Attribution(calls, part, o, ip) == 0
    ensures Attributions(calls, part, ip, lo, hi) == 0
    decreases hi
  {
    if lo < hi {
      AttributionsNone(calls, part, ip, lo, hi - 1);
    }
  }

  /** The bytes of a stretch that lie in one part, below `hi`. */
  function Share(start: nat, end: nat, part: nat, hi: nat): nat {
    var from, to := part * PARTSIZE, part * PARTSIZE + if hi < PARTSIZE then hi else PARTSIZE;
    var a := if start < from then from else start;
    var b := if end + 1 < to then end + 1 else to;
    if a < b then b - a else 0
  }

  lemma {:induction false} TransferAddsShare(calls: seq<Call>, c: Call, part: uint16, hi: nat)
    requires c.Transferred? && c.start <= c.end
    ensures Attributions(calls + [c], part, c.ip, 0, hi)
         == Attributions(calls, part, c.ip, 0, hi) + Share(c.start, c.end, part, hi)
    decreases hi
  {
    if hi > 0 {
      TransferAddsShare(calls, c, part, hi - 1);
      assert (calls + [c])[..|calls|] == calls;
    }
  }

  function Below(start: nat, end: nat, parts: nat): nat {
    var b := if end + 1 < parts * PARTSIZE then end + 1 else parts * PARTSIZE;
    if start < b then b - start else 0
  }

  lemma {:induction false} TransferAdds(calls: seq<Call>, c: Call, parts: nat, span: nat)
    requires c.Transferred? && c.start <= c.end && parts <= TWO16 && TWO32 <= span
    ensures Standing(calls + [c], c.ip, parts, span) == Standing(calls, c.ip, parts, span) + Below(c.start, c.end, parts)
    decreases parts
  {
    if parts > 0 {
      TransferAdds(calls, c, parts - 1, span);
      TransferAddsShare(calls, c, parts - 1, span);
    }
  }

  lemma {:induction false} StandingSame(calls: seq<Call>, c: Call, ip: uint32, parts: nat, span: nat)
    requires c.Transferred? && (c.ip != ip || c.start > c.end) && parts <= TWO16 && TWO32 <= span
    ensures Standing(calls + [c], ip, parts, span) == Standing(calls, ip, parts, span)
    decreases parts
  {
    if parts > 0 {
      StandingSame(calls, c, ip, parts - 1, span);
      assert (calls + [c])[..|calls|] == calls;
      AttributionsSame(calls, calls + [c], parts - 1, ip, 0, span);
    }
  }

  lemma AttributionAfterVerify(calls: seq<Call>, c: Call, p: uint16, o: nat, ip: uint32)
    requires c.Verified?
    ensures Attribution(calls + [c], p, o, ip) == if c.part == p && c.lo <= o <= c.hi then 0 else Attribution(calls, p, o, ip)
  {
    assert (calls + [c])[..|calls|] == calls;
  }

  /** A verification takes the attributions of its range away from its part, below any offset. */
  lemma {:induction false} VerifyRemovesBelow(calls: seq<Call>, c: Call, p: uint16, ip: uint32, hi: nat)
    requires c.Verified?
    ensures Attributions(calls + [c], p, ip, 0, hi)
            + (if c.part == p then Attributions(calls, p, ip, c.lo, if hi <= c.hi then hi else c.hi + 1) else 0)
         == Attributions(calls, p, ip, 0, hi)
    decreases hi
  {
    if hi > 0 {
      VerifyRemovesBelow(calls, c, p, ip, hi - 1);
      AttributionAfterVerify(calls, c, p, hi - 1, ip);
      hide Attribution;
    }
  }

  lemma {:induction false} VerifyRemoves(calls: seq<Call>, c: Call, ip: uint32, parts: nat, span: nat)
    requires c.Verified? && parts <= TWO16 && TWO32 <= span
    ensures Standing(calls + [c], ip, parts, span)
            + (if c.lo <= c.hi && c.part < parts then Attributions(calls, c.part, ip, c.lo, c.hi + 1) else 0)
         == Standing(calls, ip, parts, span)
    decreases parts
  {
    if parts > 0 {
      VerifyRemoves(calls, c, ip, parts - 1, span);
      VerifyRemovesBelow(calls, c, parts - 1, ip, span);
    }
  }

  lemma {:induction false} NothingStands(ip: uint32, parts: nat, span: nat)
    requires parts <= TWO16 && TWO32 <= span
    ensures Standing([], ip, parts, span) == 0
    decreases parts
  {
    if parts > 0 {
      NothingStands(ip, parts - 1, span);
      AttributionsNone([], parts - 1, ip, 0, span);
    }
  }

  /** In the ledger of calls, what a sender sent is what still stands to its account, what was
      found good and what was found corrupt. */
  lemma {:induction false} CallsBalance(calls: seq<Call>, ip: uint32, parts: nat, span: nat)
    requires parts == TWO16 && span >= TWO32
    requires forall k :: 0 <= k < |calls| ==> Allowed(calls[k])
    ensures Standing(calls, ip, parts, span) + VerifiedBytes(calls, true, ip) + VerifiedBytes(calls, false, ip)
         == TransferredBytes(calls, ip)
    decreases |calls|
  {
    if calls == [] {
      NothingStands(ip, parts, span);
    } else {
      var last := |calls| - 1;
      var before, c := calls[..last], calls[last];
      CallsBalance(before, ip, parts, span);
      assert calls == before + [c];
      match c {
        case Transferred(start, end, q) =>
          if q == ip && start <= end {
            TransferAdds(before, c, parts, span);
          } else {
            StandingSame(before, c, ip, parts, span);
          }
        case Verified(ok, part, lo, hi) =>
          VerifyRemoves(before, c, ip, parts, span);
      }
    }
  }

  // ----- conservation of the data -----

  /** The bytes that the record lists hold for a sender, in the parts below `parts` and offsets below `span`. */
  ghost function Recorded(records: map<uint16, seq<Record>>, ip: uint32, parts: nat, span: nat): nat
    requires parts <= TWO16
    decreases parts
  {
    if parts == 0 then 0
    else Recorded(records, ip, parts - 1, span) + CountRange(List(records, parts - 1), ip, 0, span)
  }

  lemma {:induction false} RecordedIsStanding(calls: seq<Call>, ledgers: seq<Ledger>, ip: uint32, parts: nat, span: nat)
    requires IsRun(calls, ledgers) && parts <= TWO16
    ensures Recorded(ledgers[|calls|].records, ip, parts, span) == Standing(calls, ip, parts, span)
    decreases parts
  {
    if parts > 0 {
      RecordedIsStanding(calls, ledgers, ip, parts - 1, span);
      BytesAreExact(calls, ledgers, parts - 1, ip, 0, span);
    }
  }

  /** No byte is lost and none is counted twice: after any calls, the bytes the lists still hold for a sender, its
      good credit and the bytes found corrupt are the bytes it sent; its blame is at least the bytes found corrupt. */
  lemma BytesAreConserved(calls: seq<Call>, ledgers: seq<Ledger>, ip: uint32, parts: nat, span: nat)
    requires IsRun(calls, ledgers) && parts == TWO16 && span >= TWO32
    ensures var ledger, corrupt := ledgers[|calls|], VerifiedBytes(calls, false, ip);
            && Recorded(ledger.records, ip, parts, span) + Credit(ledger.good, ip) + corrupt == TransferredBytes(calls, ip)
            && Credit(ledger.bad, ip) >= corrupt
  {
    RecordedIsStanding(calls, ledgers, ip, parts, span);
    AccountsAreExact(calls, ledgers, ip);
    CallsBalance(calls, ip, parts, span);
    hide Recorded, Standing, VerifiedBytes, TransferredBytes, Credit, Does, Allowed;
  }
}
