/** Records which address sent which bytes of a file, and credits it when the bytes are verified. */
module CorruptionBlackBox {
  import opened Words
  import opened BlackBoxSpec
  import opened Arithmetic

  const CBB_BANTHRESHOLD: nat := 32

  /** Joins new data to a record of the same sender that it touches. */
  function Merge(r: Record, start: uint32, end: uint32, ip: uint32): Option<Record> {
    if r.ip != ip then None
    else if start == r.end + 1 then Some(r.(end := end))
    else if end + 1 == r.start then Some(r.(start := start))
    else None
  }

  lemma MergeCovers(r: Record, start: uint32, end: uint32, ip: uint32, offset: nat, q: uint32)
    requires r.start <= r.end && start <= end
    requires Merge(r, start, end, ip).Some?
    ensures Covers(Merge(r, start, end, ip).value, offset, q)
         == Covers(r, offset, q) + Covers(Record(start, end, ip), offset, q)
  {
  }

  /** `list` attributes what `before` does and one stretch more. */
  ghost predicate Adds(before: seq<Record>, list: seq<Record>, r: Record) {
    forall offset: nat, q: uint32 :: Count(list, offset, q) == Count(before, offset, q) + Covers(r, offset, q)
  }

  lemma MergeAdds(before: seq<Record>, i: nat, start: uint32, end: uint32, ip: uint32)
    requires i < |before| && GoodRecords(before) && start <= end
    requires Merge(before[i], start, end, ip).Some?
    ensures Adds(before, before[i := Merge(before[i], start, end, ip).value], Record(start, end, ip))
  {
    var r := Merge(before[i], start, end, ip).value;
    var list := before[i := r];
    assert list == before[..i] + [r] + before[i + 1..];
    forall offset: nat, q: uint32
      ensures Count(list, offset, q) == Count(before, offset, q) + Covers(Record(start, end, ip), offset, q)
    {
      CountReplaced(before, i, [r], offset, q);
      CountOne(r, offset, q);
      MergeCovers(before[i], start, end, ip, offset, q);
    }
  }

  lemma AppendAdds(before: seq<Record>, r: Record)
    ensures Adds(before, before + [r], r)
  {
    forall offset: nat, q: uint32 ensures Count(before + [r], offset, q) == Count(before, offset, q) + Covers(r, offset, q) {
      CountConcat(before, [r], offset, q);
      CountOne(r, offset, q);
    }
  }

  // ----- the lists, record by record -----

  /** A stretch goes to the first record it touches, or makes a record of its own. */
  function Joined(list: seq<Record>, start: uint32, end: uint32, ip: uint32): seq<Record> {
    if list == [] then [Record(start, end, ip)]
    else
      match Merge(list[0], start, end, ip)
      case Some(r) => [r] + list[1..]
      case None => [list[0]] + Joined(list[1..], start, end, ip)
  }

  lemma {:induction false} JoinedPast(list: seq<Record>, i: nat, start: uint32, end: uint32, ip: uint32)
    requires i <= |list| && forall j :: 0 <= j < i ==> Merge(list[j], start, end, ip).None?
    ensures Joined(list, start, end, ip) == list[..i] + Joined(list[i..], start, end, ip)
    decreases i
  {
    hide Merge;
    if i > 0 {
      JoinedPast(list[1..], i - 1, start, end, ip);
      assert list[1..][i - 1..] == list[i..] && list[..i] == [list[0]] + list[1..][..i - 1];
    }
  }

  lemma {:induction false} JoinedGood(list: seq<Record>, start: uint32, end: uint32, ip: uint32)
    requires GoodRecords(list) && start <= end < PARTSIZE
    ensures GoodRecords(Joined(list, start, end, ip))
    decreases |list|
  {
    if list != [] && Merge(list[0], start, end, ip).None? {
      JoinedGood(list[1..], start, end, ip);
    }
  }

  lemma JoinedFirst(list: seq<Record>, start: uint32, end: uint32, ip: uint32)
    requires list != [] && Merge(list[0], start, end, ip).Some?
    ensures Joined(list, start, end, ip) == [Merge(list[0], start, end, ip).value] + list[1..]
  {
    hide Merge;
  }

  lemma Replaced(list: seq<Record>, i: nat, r: Record)
    requires i < |list|
    ensures list[i := r] == list[..i] + ([r] + list[i..][1..])
  {
    assert list[i..][1..] == list[i + 1..];
  }

  lemma JoinedThere(list: seq<Record>, i: nat, start: uint32, end: uint32, ip: uint32)
    requires i <= |list| && forall j :: 0 <= j < i ==> Merge(list[j], start, end, ip).None?
    ensures i == |list| ==> Joined(list, start, end, ip) == list + [Record(start, end, ip)]
    ensures i < |list| && Merge(list[i], start, end, ip).Some? ==>
              Joined(list, start, end, ip) == list[i := Merge(list[i], start, end, ip).value]
  {
    JoinedPast(list, i, start, end, ip);
    hide Merge;
    var rest := list[i..];
    if i == |list| {
      assert rest == [] && list[..i] == list;
    } else if Merge(list[i], start, end, ip).Some? {
      assert rest[0] == list[i];
      JoinedFirst(rest, start, end, ip);
      hide Joined;
      Replaced(list, i, Merge(list[i], start, end, ip).value);
    }
  }

  /** Two stretches are joined only if they are of one sender and one begins right behind the other. */
  lemma JoinedTells(list: seq<Record>, i: nat, start: uint32, end: uint32, ip: uint32)
    requires i <= |list|
    requires forall j :: 0 <= j < i ==> list[j].ip != ip || (start != list[j].end + 1 && list[j].start != end + 1)
    ensures i == |list| ==> Joined(list, start, end, ip) == list + [Record(start, end, ip)]
    ensures i < |list| && list[i].ip == ip && start == list[i].end + 1 ==>
              Joined(list, start, end, ip) == list[i := Record(list[i].start, end, ip)]
    ensures i < |list| && list[i].ip == ip && start != list[i].end + 1 && list[i].start == end + 1 ==>
              Joined(list, start, end, ip) == list[i := Record(start, list[i].end, ip)]
  {
    hide Joined;
    JoinedThere(list, i, start, end, ip);
  }

  /** What is left of a record once the bytes from `lo` to `hi` are taken out, and how many those were. */
  function Trim(r: Record, lo: uint32, hi: uint32): (seq<Record>, nat)
    requires r.start <= r.end < PARTSIZE && lo <= hi
  {
    if lo <= r.start <= hi then
      if r.end > hi then ([Record(hi + 1, r.end, r.ip)], hi - r.start + 1)
      else ([], r.end - r.start + 1)
    else if r.start < lo && r.end >= lo then
      if r.end > hi then ([Record(r.start, lo - 1, r.ip), Record(hi + 1, r.end, r.ip)], hi - lo + 1)
      else ([Record(r.start, lo - 1, r.ip)], r.end - lo + 1)
    else ([r], 0)
  }

  /** The pieces are what lies before the range and then what lies behind it. */
  lemma TrimTells(r: Record, lo: uint32, hi: uint32)
    requires r.start <= r.end < PARTSIZE && lo <= hi
    ensures r.end < lo || hi < r.start ==> Trim(r, lo, hi) == ([r], 0)
    ensures lo <= r.end && r.start <= hi ==>
              Trim(r, lo, hi).0 == (if r.start < lo then [Record(r.start, lo - 1, r.ip)] else [])
                                   + (if hi < r.end then [Record(hi + 1, r.end, r.ip)] else [])
  {
  }

  /** What is left of every record of a list, in the order of the list. */
  function Trimmed(list: seq<Record>, lo: uint32, hi: uint32): seq<Record>
    requires GoodRecords(list) && lo <= hi
  {
    if list == [] then [] else Trimmed(list[..|list| - 1], lo, hi) + Trim(list[|list| - 1], lo, hi).0
  }

  lemma TrimCovers(r: Record, lo: uint32, hi: uint32, offset: nat, q: uint32)
    requires r.start <= r.end < PARTSIZE && lo <= hi
    ensures Count(Trim(r, lo, hi).0, offset, q) == if lo <= offset <= hi then 0 else Covers(r, offset, q)
    ensures GoodRecords(Trim(r, lo, hi).0)
    ensures Trim(r, lo, hi).1 == Overlap(r, r.ip, lo, hi + 1)
  {
    var pieces := Trim(r, lo, hi).0;
    if |pieces| == 1 {
      CountOne(pieces[0], offset, q);
    } else if |pieces| == 2 {
      assert pieces == [pieces[0]] + [pieces[1]];
      CountConcat([pieces[0]], [pieces[1]], offset, q);
      CountOne(pieces[0], offset, q);
      CountOne(pieces[1], offset, q);
    }
  }

  /** The 16- and 32-bit narrowings of TransferredData lose nothing. Positions lie inside a file, so
      the part number always fits; the end relative to the first part must fit in 32 bits. */
  predicate Fits(start: uint64, end: uint64) {
    start <= end && end - start / 9_728_000 * 9_728_000 < 0x1_0000_0000
  }

  /** The byte at `offset` of `part` lies between two positions of the file. */
  predicate Within(start: nat, end: nat, part: nat, offset: nat) {
    offset < 9_728_000 && start <= part * 9_728_000 + offset <= end
  }

  /** The list of a part once the bytes of a stretch that lie in it are stored. */
  function Stored(records: map<uint16, seq<Record>>, start: nat, end: nat, ip: uint32, part: uint16): seq<Record> {
    var base := part * PARTSIZE;
    var from, to := if start < base then 0 else start - base, if end < base + PARTSIZE then end - base else PARTSIZE - 1;
    if from <= to && from < PARTSIZE then Joined(List(records, part), from, to, ip) else List(records, part)
  }

  /** What one call to TransferredData must do to the attributions. */
  ghost predicate Attributes(v: Ledger, start: uint64, end: uint64, ip: uint32, w: Ledger) {
    && w.good == v.good && w.bad == v.bad
    && (forall part: uint16 :: List(w.records, part) == Stored(v.records, start, end, ip, part))
    && (forall part: uint16, offset: nat, q: uint32 ::
          Count(List(w.records, part), offset, q)
          == Count(List(v.records, part), offset, q) + if q == ip && Within(start, end, part, offset) then 1 else 0)
  }

  /** What one call to VerifiedData must do: no attribution stays inside the range and none outside
      is touched; the senders of the removed bytes are credited with exactly those bytes, or
      blamed for each of their records in the range, as for at least a block. */
  ghost predicate Verifies(v: Ledger, ok: bool, part: uint16, lo: uint32, hi: uint32, w: Ledger) {
    && (forall p: uint16 :: p != part ==> List(w.records, p) == List(v.records, p))
    && TakenOut(List(v.records, part), List(w.records, part), lo, hi)
    && (GoodRecords(List(v.records, part)) && lo <= hi ==> List(w.records, part) == Trimmed(List(v.records, part), lo, hi))
    && CreditedSum(v.good, w.good, if ok then List(v.records, part) else [], lo, hi)
    && BlamedSum(v.bad, w.bad, if ok then [] else List(v.records, part), lo, hi)
  }

  /** The blame that grows by that for `list`. */
  ghost predicate BlamedSum(was: map<uint32, nat>, now: map<uint32, nat>, list: seq<Record>, lo: nat, hi: nat) {
    forall q: uint32 :: Credit(now, q) == Credit(was, q) + Blame(list, q, lo, hi)
  }

  /** The accounts after `data` bytes of one sender are booked. */
  ghost predicate Booked(ok: bool, ip: uint32, data: nat, good: map<uint32, nat>, bad: map<uint32, nat>,
                         good': map<uint32, nat>, bad': map<uint32, nat>) {
    && (forall q: uint32 :: Credit(good', q) == Credit(good, q) + if ok && q == ip then data else 0)
    && (forall q: uint32 :: Credit(bad', q) == Credit(bad, q)
                          + if !ok && q == ip && data > 0 then (if data > EMBLOCKSIZE then data else EMBLOCKSIZE) else 0)
    && (AllPositive(bad) ==> AllPositive(bad'))
  }

  lemma BookStep(ok: bool, before: seq<Record>, n: nat, lo: uint32, hi: uint32,
                 good0: map<uint32, nat>, bad0: map<uint32, nat>, good: map<uint32, nat>, bad: map<uint32, nat>,
                 good': map<uint32, nat>, bad': map<uint32, nat>)
    requires n < |before| && GoodRecords(before) && lo <= hi
    requires Booked(ok, before[n].ip, Trim(before[n], lo, hi).1, good, bad, good', bad')
    requires CreditedSum(good0, good, if ok then before[..n] else [], lo, hi)
    requires BlamedSum(bad0, bad, if ok then [] else before[..n], lo, hi)
    ensures CreditedSum(good0, good', if ok then before[..n + 1] else [], lo, hi)
    ensures BlamedSum(bad0, bad', if ok then [] else before[..n + 1], lo, hi)
  {
    TrimCovers(before[n], lo, hi, 0, 0);
    hide Trim, GoodRecords;
    assert before[..n + 1][..n] == before[..n];
    forall q: uint32
      ensures BytesOf(before[..n + 1], q, lo, hi)
           == BytesOf(before[..n], q, lo, hi) + if q == before[n].ip then Trim(before[n], lo, hi).1 else 0
    {
      BytesStep(before, n, lo, hi, q);
    }
  }

  /** `list` attributes what `before` does, outside the range. */
  ghost predicate TakenOut(before: seq<Record>, list: seq<Record>, lo: nat, hi: nat) {
    forall offset: nat, q: uint32 :: Count(list, offset, q) == if lo <= offset <= hi then 0 else Count(before, offset, q)
  }

  /** The good bytes that grow by exactly the bytes removed from `list`. */
  ghost predicate CreditedSum(was: map<uint32, nat>, now: map<uint32, nat>, list: seq<Record>, lo: nat, hi: nat) {
    forall q: uint32 :: Credit(now, q) == Credit(was, q) + BytesOf(list, q, lo, hi)
  }

  lemma {:induction false} TrimmedGood(list: seq<Record>, lo: uint32, hi: uint32)
    requires GoodRecords(list) && lo <= hi
    ensures GoodRecords(Trimmed(list, lo, hi))
    decreases |list|
  {
    if list != [] {
      var last := |list| - 1;
      TrimmedGood(list[..last], lo, hi);
      TrimCovers(list[last], lo, hi, 0, 0);
      hide Trim;
    }
  }

  lemma GoodRecord(list: seq<Record>, n: nat)
    requires GoodRecords(list) && n < |list|
    ensures list[n].start <= list[n].end < PARTSIZE
  {
  }

  lemma NothingTaken(good: map<uint32, nat>, bad: map<uint32, nat>, lo: uint32, hi: uint32)
    requires lo <= hi
    ensures GoodRecords([]) && TakenOut([], [], lo, hi) && Trimmed([], lo, hi) == []
    ensures CreditedSum(good, good, [], lo, hi) && BlamedSum(bad, bad, [], lo, hi)
  {
    NothingRecorded(lo, hi);
  }

  lemma Spliced(list: seq<Record>, i: nat, pieces: seq<Record>)
    requires i < |list|
    ensures var after := list[..i] + pieces + list[i + 1..];
            after[..i + |pieces|] == list[..i] + pieces && after[i + |pieces|..] == list[i..][1..]
  {
    assert list[i..][1..] == list[i + 1..];
  }

  lemma GoodConcat(a: seq<Record>, b: seq<Record>)
    requires GoodRecords(a) && GoodRecords(b)
    ensures GoodRecords(a + b)
  {
  }

  lemma TrimmedStep(before: seq<Record>, n: nat, lo: uint32, hi: uint32)
    requires n < |before| && GoodRecords(before) && lo <= hi
    ensures Trimmed(before[..n + 1], lo, hi) == Trimmed(before[..n], lo, hi) + Trim(before[n], lo, hi).0
  {
    assert before[..n + 1][..n] == before[..n];
  }

  lemma TakeOutStep(done: seq<Record>, before: seq<Record>, n: nat, lo: uint32, hi: uint32)
    requires n < |before| && GoodRecords(before) && lo <= hi
    requires TakenOut(before[..n], done, lo, hi)
    ensures TakenOut(before[..n + 1], done + Trim(before[n], lo, hi).0, lo, hi)
  {
    forall offset: nat, q: uint32
      ensures Count(done + Trim(before[n], lo, hi).0, offset, q)
           == if lo <= offset <= hi then 0 else Count(before[..n + 1], offset, q)
    {
      TrimStep(done, before, n, lo, hi, offset, q);
    }
  }

  lemma NothingRecorded(lo: nat, hi: nat)
    ensures forall q: uint32 :: BytesOf([], q, lo, hi) == 0
  {
    forall q: uint32 ensures BytesOf([], q, lo, hi) == 0 {
      OverlapIsCount([], q, lo, hi + 1);
    }
  }

  /** One turn of the loop of VerifiedData, on the counts. */
  lemma TrimStep(done: seq<Record>, before: seq<Record>, n: nat, lo: uint32, hi: uint32, offset: nat, q: uint32)
    requires n < |before| && GoodRecords(before) && lo <= hi
    requires Count(done, offset, q) == if lo <= offset <= hi then 0 else Count(before[..n], offset, q)
    ensures Count(done + Trim(before[n], lo, hi).0, offset, q)
         == if lo <= offset <= hi then 0 else Count(before[..n + 1], offset, q)
  {
    CountConcat(done, Trim(before[n], lo, hi).0, offset, q);
    TrimCovers(before[n], lo, hi, offset, q);
    assert before[..n + 1][..n] == before[..n];
  }

  /** One turn of the loop of VerifiedData, on the bytes removed. */
  lemma BytesStep(before: seq<Record>, n: nat, lo: uint32, hi: uint32, q: uint32)
    requires n < |before| && GoodRecords(before) && lo <= hi
    ensures BytesOf(before[..n + 1], q, lo, hi)
         == BytesOf(before[..n], q, lo, hi) + if q == before[n].ip then Trim(before[n], lo, hi).1 else 0
  {
    assert before[..n + 1][..n] == before[..n];
    OverlapIsCount(before[..n + 1], q, lo, hi + 1);
    OverlapIsCount(before[..n], q, lo, hi + 1);
    TrimCovers(before[n], lo, hi, 0, q);
  }

  lemma PercentageRule(bad: nat, good: nat)
    requires bad > 0
    ensures bad * 100 / (bad + good) > CBB_BANTHRESHOLD <==> 100 * bad >= 33 * (bad + good)
  {
    var d := bad + good;
    var q := bad * 100 / d;
    assert d * q <= bad * 100 < d * (q + 1);
    if q > 32 {
      MulMonotone(d, 33, q);
    } else {
      MulMonotone(d, q + 1, 33);
    }
  }

  /** The 16-bit number of the part a byte lies in. */
  function PartOf(offset: uint64): uint16 {
    (offset / PARTSIZE) % TWO16
  }

  /** The distance from the start of a part, cut to 32 bits. */
  function Relative(end: uint64, part: uint16): uint32
    requires part * PARTSIZE <= end
  {
    (end - part * PARTSIZE) % TWO32
  }

  lemma CutPoints(start: uint64, end: uint64)
    requires start <= end < MAX_FILE_SIZE
    ensures PartOf(start) == start / PARTSIZE && PartOf(start) + 1 < TWO16
    ensures PartOf(start) * PARTSIZE <= start < (PartOf(start) + 1) * PARTSIZE
    ensures (PartOf(start) + 1) * PARTSIZE / PARTSIZE == PartOf(start) + 1
    ensures var rel := Relative(end, PartOf(start));
            && (rel >= PARTSIZE ==> (PartOf(start) + 1) * PARTSIZE <= end
                                    && (Fits(start, end) <==> Fits((PartOf(start) + 1) * PARTSIZE, end)))
            && (Fits(start, end) ==> rel == end - PartOf(start) * PARTSIZE
                                     && RelativeEnd(start, end) == if rel >= PARTSIZE then PARTSIZE - 1 else rel)
            && (!Fits(start, end) ==> PartOf(start) < end / PARTSIZE)
  {
  }

  lemma WellFormedList(v: Ledger, part: uint16)
    requires WellFormed(v)
    ensures GoodRecords(List(v.records, part))
  {
  }

  lemma WellFormedStored(v: Ledger, w: Ledger, part: uint16)
    requires WellFormed(v) && part in w.records && w == v.(records := v.records[part := w.records[part]])
    requires w.records[part] != [] && GoodRecords(w.records[part])
    ensures WellFormed(w)
  {
  }

  class CorruptionBlackBox {
    var records: map<uint16, seq<Record>>
    var goodClients: map<uint32, nat>
    var badClients: map<uint32, nat>

    ghost function Contents(): Ledger
      reads this
    {
      Ledger(records, goodClients, badClients)
    }

    ghost predicate Valid()
      reads this
    {
      WellFormed(Contents())
    }

    constructor ()
      ensures Valid() && Contents() == Ledger(map[], map[], map[])
    {
      records, goodClients, badClients := map[], map[], map[];
    }

    method Free()
      modifies this
      ensures Valid() && Contents() == Ledger(map[], map[], map[])
    {
      records, goodClients, badClients := map[], map[], map[];
    }

    /** Adds one stretch to the list of its part: to the first record it touches, or at the end. */
    static method AddToList(before: seq<Record>, start: uint32, end: uint32, ip: uint32) returns (list: seq<Record>)
      requires GoodRecords(before) && start <= end < PARTSIZE
      ensures GoodRecords(list) && list != []
      ensures Adds(before, list, Record(start, end, ip)) && list == Joined(before, start, end, ip)
    {
      hide Joined;
      list := before;
      var merged, i := false, 0;
      while i < |list| && !merged
        invariant 0 <= i <= |list| && GoodRecords(list)
        invariant merged ==> list != [] && Adds(before, list, Record(start, end, ip)) && list == Joined(before, start, end, ip)
        invariant !merged ==> list == before && forall j :: 0 <= j < i ==> Merge(before[j], start, end, ip).None?
      {
        var r := Merge(list[i], start, end, ip);
        if r.Some? {
          MergeAdds(list, i, start, end, ip);
          JoinedThere(list, i, start, end, ip);
          hide Adds;
          merged := true;
          list := list[i := r.value];
        }
        i := i + 1;
      }
      if !merged {
        JoinedThere(list, |list|, start, end, ip);
        AppendAdds(list, Record(start, end, ip));
        list := list + [Record(start, end, ip)];
      }
    }

    /** Stores a stretch of received data, cut at the part borders. When the end does not fit in
        32 bits relative to the first part, the data of the last part is not recorded at all. */
    method TransferredData(start: uint64, end: uint64, senderIP: uint32)
      requires Valid() && end < MAX_FILE_SIZE
      modifies `records
      ensures start > end ==> records == old(records)
      ensures Fits(start, end) ==> Valid() && Attributes(old(Contents()), start, end, senderIP, Contents())
      ensures start <= end && !Fits(start, end) ==>
                List(records, end / PARTSIZE) == List(old(records), end / PARTSIZE)
      ensures forall p: uint16 :: p < start / PARTSIZE ==> List(records, p) == List(old(records), p)
      decreases end - start, 0
    {
      if start > end {
        return;
      }
      CutPoints(start, end);
      var part := PartOf(start);
      var relStart := start - part * PARTSIZE;
      var relEnd := Relative(end, part);
      WellFormedList(Contents(), part);
      hide PartOf, Relative, Fits, RelativeEnd, Attributes, Adds, WellFormed, GoodRecords;
      if relEnd >= PARTSIZE {
        relEnd := PARTSIZE - 1;
        LaterParts(part + 1, end, senderIP);
      }
      assert List(records, part) == List(old(records), part);
      ghost var later := Contents();
      Store(part, relStart, relEnd, senderIP);
      if Fits(start, end) {
        WellFormedStored(later, Contents(), part);
        JoinAtBorder(old(Contents()), later, Contents(), start, end, senderIP);
      }
    }

    /** The bytes from the start of a part on. */
    method LaterParts(part: uint16, end: uint64, senderIP: uint32)
      requires Valid() && part * PARTSIZE <= end < MAX_FILE_SIZE && part * PARTSIZE / PARTSIZE == part
      modifies `records
      ensures if Fits(part * PARTSIZE, end) then Valid() && Attributes(old(Contents()), part * PARTSIZE, end, senderIP, Contents())
              else List(records, end / PARTSIZE) == List(old(records), end / PARTSIZE)
      ensures forall p: uint16 :: p < part ==> List(records, p) == List(old(records), p)
      decreases end - part * PARTSIZE, 1
    {
      hide Fits, Attributes, WellFormed;
      TransferredData(part * PARTSIZE, end, senderIP);
    }

    method Store(part: uint16, start: uint32, end: uint32, ip: uint32)
      requires GoodRecords(List(records, part)) && start < PARTSIZE && end < PARTSIZE
      modifies `records
      ensures part in records && records == old(records)[part := records[part]]
      ensures start <= end ==> GoodRecords(records[part]) && records[part] != []
      ensures start <= end ==> Adds(List(old(records), part), records[part], Record(start, end, ip))
      ensures start <= end ==> records[part] == Joined(List(old(records), part), start, end, ip)
    {
      var list;
      if start <= end {
        list := AddToList(List(records, part), start, end, ip);
      } else {
        // the source keeps a record here that it never initialises
        list :| true;
      }
      records := records[part := list];
    }

    /** Credits or blames one sender for `data` bytes. */
    method Book(ok: bool, ip: uint32, data: nat)
      modifies `goodClients, `badClients
      ensures Booked(ok, ip, data, old(goodClients), old(badClients), goodClients, badClients)
    {
      if data > 0 {
        if ok {
          goodClients := goodClients[ip := Credit(goodClients, ip) + data];
        } else {
          badClients := badClients[ip := Credit(badClients, ip) + if data > EMBLOCKSIZE then data else EMBLOCKSIZE];
        }
      }
    }

    /** The loop of VerifiedData over the records of one part. */
    method TakeOut(ok: bool, before: seq<Record>, lo: uint32, hi: uint32) returns (list: seq<Record>)
      requires GoodRecords(before) && lo <= hi
      modifies `goodClients, `badClients
      ensures GoodRecords(list) && TakenOut(before, list, lo, hi) && list == Trimmed(before, lo, hi)
      ensures CreditedSum(old(goodClients), goodClients, if ok then before else [], lo, hi)
      ensures BlamedSum(old(badClients), badClients, if ok then [] else before, lo, hi)
      ensures AllPositive(old(badClients)) ==> AllPositive(badClients)
    {
      list := before;
      var i := 0;
      ghost var n := 0;  // records of `before` gone through
      assert before[..n] == [] == list[..i];
      NothingTaken(goodClients, badClients, lo, hi);
      hide *;
      while i < |list|
        invariant 0 <= i <= |list| && 0 <= n <= |before| && list[i..] == before[n..]
        invariant GoodRecords(list[..i]) && TakenOut(before[..n], list[..i], lo, hi) && list[..i] == Trimmed(before[..n], lo, hi)
        invariant CreditedSum(old(goodClients), goodClients, if ok then before[..n] else [], lo, hi)
        invariant BlamedSum(old(badClients), badClients, if ok then [] else before[..n], lo, hi)
        invariant AllPositive(old(badClients)) ==> AllPositive(badClients)
        decreases |before| - n
      {
        var r := list[i];
        assert r == before[n] by { assert r == list[i..][0]; }
        GoodRecord(before, n);
        var (pieces, data) := Trim(r, lo, hi);
        TrimCovers(r, lo, hi, 0, 0);
        TakeOutStep(list[..i], before, n, lo, hi);
        TrimmedStep(before, n, lo, hi);
        ghost var done, good, bad := list[..i], goodClients, badClients;
        Spliced(list, i, pieces);
        assert before[n..][1..] == before[n + 1..];
        GoodConcat(done, pieces);
        list := list[..i] + pieces + list[i + 1..];
        i := i + |pieces|;
        Book(ok, r.ip, data);
        BookStep(ok, before, n, lo, hi, old(goodClients), old(badClients), good, bad, goodClients, badClients);
        n := n + 1;
      }
      assert before[..n] == before && list[..i] == list;
    }

    /** Takes a verified stretch out of the records of its part and credits or blames the senders. */
    method VerifiedData(ok: bool, part: uint16, lo: uint32, hi: uint32)
      requires Valid()
      modifies this
      ensures Valid()
      ensures lo > hi ==> Contents() == old(Contents())
      ensures lo <= hi ==> Verifies(old(Contents()), ok, part, lo, hi, Contents())
    {
      if lo > hi {
        return;
      }
      var list := TakeOut(ok, List(records, part), lo, hi);
      if list == [] {
        records := records - {part};
      } else {
        records := records[part := list];
      }
    }

    /** Who is to be banned: whose corrupt bytes are more than the threshold, in per cent. */
    method EvaluateData() returns (banned: set<uint32>, reported: set<uint32>)
      requires Valid()
      ensures banned + reported == badClients.Keys && banned !! reported
      ensures forall ip :: ip in badClients ==>
                (ip in banned <==> 100 * badClients[ip] >= 33 * (badClients[ip] + Credit(goodClients, ip)))
    {
      banned, reported := {}, {};
      var left := badClients.Keys;
      while left != {}
        invariant left <= badClients.Keys
        invariant banned + reported == badClients.Keys - left && banned !! reported
        invariant forall ip :: ip in badClients && ip !in left ==>
                    (ip in banned <==> 100 * badClients[ip] >= 33 * (badClients[ip] + Credit(goodClients, ip)))
        decreases left
      {
        var ip :| ip in left;
        left := left - {ip};
        var bad := badClients[ip];
        // every blamed sender has blame, so the source's check for zero never fires
        var good := if ip in goodClients then goodClients[ip] else 0;
        var nCorruptPercentage := bad * 100 / (bad + good);
        PercentageRule(bad, good);
        if nCorruptPercentage > CBB_BANTHRESHOLD {
          banned := banned + {ip};
        } else {
          reported := reported + {ip};
        }
      }
    }
  }

  function RelativeEnd(start: nat, end: nat): nat
    requires start <= end
  {
    var rel := end - start / PARTSIZE * PARTSIZE;
    if rel >= PARTSIZE then PARTSIZE - 1 else rel
  }

  /** The bytes of a stretch are those in its first part and those from the next part on. */
  lemma SplitAtBorder(start: nat, end: nat, p: nat, offset: nat)
    requires start <= end
    ensures var part := start / PARTSIZE;
            Within(start, end, p, offset)
            == if p == part then start - part * PARTSIZE <= offset <= RelativeEnd(start, end)
               else end - part * PARTSIZE >= PARTSIZE && Within((part + 1) * PARTSIZE, end, p, offset)
  {
  }

  lemma StoredAtBorder(records: map<uint16, seq<Record>>, start: nat, end: nat, ip: uint32, p: uint16)
    requires start <= end
    ensures var part := start / PARTSIZE;
            Stored(records, start, end, ip, p)
            == if p == part then Joined(List(records, p), start - part * PARTSIZE, RelativeEnd(start, end), ip)
               else if end - part * PARTSIZE >= PARTSIZE then Stored(records, (part + 1) * PARTSIZE, end, ip, p)
               else List(records, p)
  {
    hide Joined;
  }

  /** Recording the later parts and then the first part records the whole stretch. */
  lemma JoinAtBorder(v: Ledger, later: Ledger, w: Ledger, start: uint64, end: uint64, ip: uint32)
    requires Fits(start, end) && end < MAX_FILE_SIZE
    requires var part := start / PARTSIZE;
             && (if end - part * PARTSIZE >= PARTSIZE then Attributes(v, (part + 1) * PARTSIZE, end, ip, later)
                 else later == v)
             && part in w.records && w == later.(records := later.records[part := w.records[part]])
             && List(later.records, part) == List(v.records, part)
             && w.records[part] == Joined(List(v.records, part), start - part * PARTSIZE, RelativeEnd(start, end), ip)
             && Adds(List(v.records, part), w.records[part],
                     Record(start - part * PARTSIZE, RelativeEnd(start, end), ip))
    ensures Attributes(v, start, end, ip, w)
  {
    hide Joined;
    forall p: uint16
      ensures List(w.records, p) == Stored(v.records, start, end, ip, p)
    {
      StoredAtBorder(v.records, start, end, ip, p);
    }
    forall p: uint16, offset: nat, q: uint32
      ensures Count(List(w.records, p), offset, q)
           == Count(List(v.records, p), offset, q) + if q == ip && Within(start, end, p, offset) then 1 else 0
    {
      SplitAtBorder(start, end, p, offset);
    }
  }

  /** When the end does not fit, the call does not do its work: the last byte, at least, is lost. */
  lemma TruncationLosesData(v: Ledger, w: Ledger, start: uint64, end: uint64, ip: uint32)
    requires start <= end < MAX_FILE_SIZE
    requires List(w.records, end / PARTSIZE) == List(v.records, end / PARTSIZE)
    ensures !Attributes(v, start, end, ip, w)
  {
    var part, offset := end / PARTSIZE, end % PARTSIZE;
    assert Within(start, end, part, offset);
    assert Count(List(w.records, part), offset, ip) == Count(List(v.records, part), offset, ip);
  }

  /** What the program records is a piece of one requested block, which has at most 184320 bytes: it always fits. */
  lemma RequestedPiecesFit(blockStart: uint64, blockEnd: uint64, start: uint64, end: uint64)
    requires blockStart <= start <= end <= blockEnd < blockStart + 184_320
    ensures Fits(start, end)
  {
    assert start - start / PARTSIZE * PARTSIZE < PARTSIZE;
  }

  /** One short corrupt piece outweighs 100000 good bytes: it counts as a block, and the sender is over the limit. */
  lemma ShortPieceIsABlock(v: Ledger, w: Ledger)
    requires List(v.records, 0) == [Record(0, 999, 7)] && Credit(v.good, 7) == 100_000 && Credit(v.bad, 7) == 0
    requires Verifies(v, false, 0, 0, 999, w)
    ensures Credit(w.good, 7) == 100_000 && Credit(w.bad, 7) == 184_320
    ensures 100 * Credit(w.bad, 7) >= 33 * (Credit(w.bad, 7) + Credit(w.good, 7))
  {
    NothingRecorded(0, 999);
    assert [Record(0, 999, 7)][..0] == [];
    hide TakenOut, BytesOf;
  }

  /** Such an input: a stretch from the first byte of a file to one past the fourth gigabyte. */
  lemma TruncationHappens()
    ensures TWO32 < MAX_FILE_SIZE && !Fits(0, TWO32)
  {
    assert 0 / PARTSIZE == 0;
  }
}
