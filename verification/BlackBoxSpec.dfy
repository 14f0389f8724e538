/** What the corruption black box is for: who sent each byte of each part. The interval lists
    are read here as a multiset of attributions, and a history of calls as a simple ledger. */
module BlackBoxSpec {
  import opened Words

  const PARTSIZE: nat := 9_728_000
  const EMBLOCKSIZE: nat := 184_320
  const MAX_FILE_SIZE: nat := 0x40_0000_0000

  /** A stretch of one part, both ends included, received from one address. */
  datatype Record = Record(start: uint32, end: uint32, ip: uint32)

  datatype Ledger = Ledger(records: map<uint16, seq<Record>>, good: map<uint32, nat>, bad: map<uint32, nat>)

  function List(m: map<uint16, seq<Record>>, part: uint16): seq<Record> {
    if part in m then m[part] else []
  }

  function Credit(m: map<uint32, nat>, ip: uint32): nat {
    if ip in m then m[ip] else 0
  }

  ghost predicate GoodRecords(list: seq<Record>) {
    forall k :: 0 <= k < |list| ==> list[k].start <= list[k].end < PARTSIZE
  }

  ghost predicate WellFormed(v: Ledger) {
    && (forall p :: p in v.records ==> v.records[p] != [] && GoodRecords(v.records[p]))
    && AllPositive(v.bad)
  }

  ghost predicate AllPositive(m: map<uint32, nat>) {
    forall ip :: ip in m ==> m[ip] > 0
  }

  // ----- lists as multisets of (offset, sender) -----

  function Covers(r: Record, offset: nat, ip: uint32): nat {
    if r.ip == ip && r.start <= offset <= r.end then 1 else 0
  }

  /** How often the byte at `offset` is attributed to `ip`. */
  function Count(list: seq<Record>, offset: nat, ip: uint32): nat {
    if list == [] then 0 else Count(list[..|list| - 1], offset, ip) + Covers(list[|list| - 1], offset, ip)
  }

  /** All attributions to `ip` of bytes from `lo` up to `hi`. */
  function CountRange(list: seq<Record>, ip: uint32, lo: nat, hi: nat): nat
    decreases hi
  {
    if hi <= lo then 0 else CountRange(list, ip, lo, hi - 1) + Count(list, hi - 1, ip)
  }

  /** The bytes attributed to `ip` from `lo` to `hi`, both included. */
  function BytesOf(list: seq<Record>, ip: uint32, lo: nat, hi: nat): nat {
    CountRange(list, ip, lo, hi + 1)
  }

  /** The bytes of one record from `lo` up to `hi`. */
  function Overlap(r: Record, ip: uint32, lo: nat, hi: nat): nat {
    if r.ip != ip then 0
    else
      var a := if r.start < lo then lo else r.start;
      var b := if r.end + 1 < hi then r.end + 1 else hi;
      if a < b then b - a else 0
  }

  function OverlapSum(list: seq<Record>, ip: uint32, lo: nat, hi: nat): nat {
    if list == [] then 0 else OverlapSum(list[..|list| - 1], ip, lo, hi) + Overlap(list[|list| - 1], ip, lo, hi)
  }

  /** The blame for a list of records: each record of `ip` that meets the range counts as the bytes it has there, but as
      no less than one block of 184320. */
  function Blame(list: seq<Record>, ip: uint32, lo: nat, hi: nat): nat {
    if list == [] then 0
    else
      var n := Overlap(list[|list| - 1], ip, lo, hi + 1);
      Blame(list[..|list| - 1], ip, lo, hi) + if n == 0 then 0 else if n < 184_320 then 184_320 else n
  }

  /** Record by record: the bytes that a record has in the range, at least a block if it has any. */
  lemma BlameOfOneMore(list: seq<Record>, r: Record, ip: uint32, lo: nat, hi: nat)
    ensures Blame([], ip, lo, hi) == 0
    ensures var n := BytesOf([r], ip, lo, hi);
            && (n == 0 ==> Blame(list + [r], ip, lo, hi) == Blame(list, ip, lo, hi))
            && (0 < n < 184_320 ==> Blame(list + [r], ip, lo, hi) == Blame(list, ip, lo, hi) + 184_320)
            && (n >= 184_320 ==> Blame(list + [r], ip, lo, hi) == Blame(list, ip, lo, hi) + n)
  {
    assert [r][..0] == [] && (list + [r])[..|list|] == list;
    OverlapIsCount([r], ip, lo, hi + 1);
    assert OverlapSum([r], ip, lo, hi + 1) == OverlapSum([], ip, lo, hi + 1) + Overlap(r, ip, lo, hi + 1);
    hide Overlap, CountRange;
  }

  /** Blame is never less than the bytes, and never more than a block for each. */
  lemma {:induction false} BlameIsBounded(list: seq<Record>, ip: uint32, lo: nat, hi: nat)
    ensures BytesOf(list, ip, lo, hi) <= Blame(list, ip, lo, hi) <= 184_320 * BytesOf(list, ip, lo, hi)
    decreases |list|
  {
    OverlapIsCount(list, ip, lo, hi + 1);
    if list != [] {
      var before := list[..|list| - 1];
      BlameIsBounded(before, ip, lo, hi);
      OverlapIsCount(before, ip, lo, hi + 1);
      hide Overlap;
    }
  }

  lemma {:induction false} OverlapIsCount(list: seq<Record>, ip: uint32, lo: nat, hi: nat)
    ensures OverlapSum(list, ip, lo, hi) == CountRange(list, ip, lo, hi)
    decreases hi, |list|
  {
    if hi <= lo {
      NoOverlap(list, ip, lo, hi);
    } else {
      OverlapIsCount(list, ip, lo, hi - 1);
      OverlapGrows(list, ip, lo, hi);
    }
  }

  lemma {:induction false} NoOverlap(list: seq<Record>, ip: uint32, lo: nat, hi: nat)
    requires hi <= lo
    ensures OverlapSum(list, ip, lo, hi) == 0
    decreases |list|
  {
    if list != [] {
      NoOverlap(list[..|list| - 1], ip, lo, hi);
    }
  }

  lemma {:induction false} OverlapGrows(list: seq<Record>, ip: uint32, lo: nat, hi: nat)
    requires lo < hi
    ensures OverlapSum(list, ip, lo, hi) == OverlapSum(list, ip, lo, hi - 1) + Count(list, hi - 1, ip)
    decreases |list|
  {
    if list != [] {
      OverlapGrows(list[..|list| - 1], ip, lo, hi);
    }
  }

  lemma {:induction false} CountConcat(xs: seq<Record>, ys: seq<Record>, offset: nat, ip: uint32)
    ensures Count(xs + ys, offset, ip) == Count(xs, offset, ip) + Count(ys, offset, ip)
    decreases |ys|
  {
    if ys == [] {
      assert xs + ys == xs;
    } else {
      var last := |ys| - 1;
      CountConcat(xs, ys[..last], offset, ip);
      assert (xs + ys)[..|xs| + last] == xs + ys[..last];
    }
  }

  lemma CountOne(r: Record, offset: nat, ip: uint32)
    ensures Count([r], offset, ip) == Covers(r, offset, ip)
  {
    assert [r][..0] == [];
  }

  /** Changing one record changes the counts by that record only. */
  lemma CountReplaced(list: seq<Record>, k: nat, pieces: seq<Record>, offset: nat, ip: uint32)
    requires k < |list|
    ensures Count(list[..k] + pieces + list[k + 1..], offset, ip) + Covers(list[k], offset, ip)
         == Count(list, offset, ip) + Count(pieces, offset, ip)
  {
    CountConcat(list[..k] + pieces, list[k + 1..], offset, ip);
    CountConcat(list[..k], pieces, offset, ip);
    assert list == list[..k] + [list[k]] + list[k + 1..];
    CountConcat(list[..k] + [list[k]], list[k + 1..], offset, ip);
    CountConcat(list[..k], [list[k]], offset, ip);
    CountOne(list[k], offset, ip);
  }
}
