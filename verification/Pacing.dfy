/** The arithmetic of CEMSocket: fragment rounding and the pace that keeps a connection alive. */
module Pacing {
  import opened Words
  import opened Arithmetic

  /** Rounds up to a whole number of fragments, in 32-bit arithmetic. */
  function NextFragSize(current: uint32, minFragSize: uint32): uint32
    requires minFragSize > 0
  {
    if current % minFragSize == 0 then current
    else (minFragSize as nat * (current / minFragSize + 1)) % TWO32
  }

  /** Rounds up to a whole number of fragments, without a width. */
  function RoundUp(current: nat, m: nat): nat
    requires m > 0
  {
    if current % m == 0 then current else current - current % m + m
  }

  /** Rounding is exact unless it leaves 32 bits, and then what is left is less than one fragment. */
  lemma NextFragSizeRounds(current: uint32, m: uint32)
    requires m > 0
    ensures RoundUp(current, m) < TWO32 ==> NextFragSize(current, m) == RoundUp(current, m)
    ensures RoundUp(current, m) >= TWO32 ==> NextFragSize(current, m) < m
  {
    DivideOut(current, m);
    if current % m != 0 {
      var r := current - current % m + m;
      assert r < TWO32 + m;
      assert NextFragSize(current, m) == r % TWO32;
      if r >= TWO32 {
        assert r - TWO32 < m < TWO32;
        assert r % TWO32 == r - TWO32;
      }
    }
  }

  /** Adding bytes inside a fragment. */
  lemma InsideFragment(n: nat, k: nat, m: nat)
    requires m > 0 && n % m + k <= m
    ensures (n + k) % m == if n % m + k == m then 0 else n % m + k
  {
    if n % m + k == m {
      DivideOut(n, m);
      DivisionIsUnique(n + k, m, n / m + 1, 0);
    } else {
      DivisionIsUnique(n + k, m, n / m, n % m + k);
    }
  }

  /** The next fragment border lies inside every larger whole number of fragments. */
  lemma BorderWithin(n: nat, b: nat, m: nat)
    requires m > 0 && n < b && b % m == 0
    ensures RoundUp(n, m) <= b
  {
    if n % m != 0 {
      DivideOut(n, m);
      var q := b / m;
      assert b == m * q;
      MulCancels(m, n / m, q);
      MulMonotone(m, n / m + 1, q);
    }
  }

  // ----- the tests of the two loops of Send -----

  /** `budget` is what the rounding of line 490 leaves: whole fragments, or less than one. */
  predicate IsBudget(budget: nat, m: nat)
    requires m > 0
  {
    budget % m == 0 || budget < m
  }

  /** The most one call can write under a budget. */
  function Cap(budget: nat, m: nat): nat
    requires m > 0
  {
    if budget % m == 0 then budget else m
  }

  lemma RoundUpIsMultiple(n: nat, m: nat)
    requires m > 0
    ensures RoundUp(n, m) % m == 0 && n <= RoundUp(n, m) < n + m
  {
    if n % m != 0 {
      InsideFragment(n, m - n % m, m);
    }
  }

  lemma BudgetIsRounded(max: uint32, m: uint32)
    requires m > 0
    ensures IsBudget(NextFragSize(max, m), m)
    ensures Cap(NextFragSize(max, m), m) <= RoundUp(max, m)
    ensures Cap(NextFragSize(max, m), m) < TWO32
  {
    NextFragSizeRounds(max, m);
    DivideOut(max, m);
    if RoundUp(max, m) < TWO32 && max % m != 0 {
      InsideFragment(max, m - max % m, m);
    }
  }

  /** May the inner loop write more of the packet in the buffer (lines 550 to 555)? */
  predicate MayWrite(onlyControl: bool, isControl: bool, wasLong: bool, total: nat, m: nat)
    requires m > 0
  {
    !onlyControl || isControl || (wasLong && total < m) || total % m != 0
  }

  /** The size asked of one write (lines 557 to 568). */
  function WriteSize(left: uint32, total: uint32, budget: uint32, m: uint32,
                     onlyControl: bool, isControl: bool, wasLong: bool): uint32
    requires m > 0
  {
    if !onlyControl || isControl then
      if budget >= total && left > budget - total then budget - total else left
    else if wasLong && total < m then
      if m >= total && left > m - total then m - total else left
    else
      var border := NextFragSize(total, m);
      if border >= total && left > border - total then border - total else left
  }

  /** The assertion of line 569, and how far one write can go. */
  lemma WriteSizeFits(left: uint32, total: uint32, budget: uint32, m: uint32,
                      onlyControl: bool, isControl: bool, wasLong: bool)
    requires m > 0 && left > 0 && total < budget && IsBudget(budget, m)
    requires MayWrite(onlyControl, isControl, wasLong, total, m)
    ensures var n := WriteSize(left, total, budget, m, onlyControl, isControl, wasLong);
            && 1 <= n <= left
            && total + n <= Cap(budget, m)
            && (onlyControl && !isControl ==> InFragment(total, n, m))
  {
    if budget % m == 0 {
      BorderWithin(0, budget, m);
      BorderWithin(total, budget, m);
      MultipleAtLeast(budget, m);
    }
    if total < m {
      DivisionIsUnique(total, m, 0, total);
    }
    DivideOut(total, m);
    NextFragSizeRounds(total, m);
  }

  /** `count` bytes after `total0` do not leave the fragment they begin in. */
  predicate InFragment(total0: nat, count: nat, m: nat)
    requires m > 0
  {
    total0 % m + count <= m
  }

  /** Further writes of a standard packet in a control-only call stay in the fragment they began in. */
  lemma StaysInFragment(total0: nat, count: nat, n: nat, wasLong: bool, m: nat)
    requires m > 0 && InFragment(total0, count, m) && InFragment(total0 + count, n, m)
    requires MayWrite(true, false, wasLong, total0 + count, m)
    ensures InFragment(total0, count + n, m)
  {
    InsideFragment(total0, count, m);
    if total0 + count < m {
      DivisionIsUnique(total0 + count, m, 0, total0 + count);
    }
  }

  lemma MultipleAtLeast(b: nat, m: nat)
    requires m > 0 && b > 0 && b % m == 0
    ensures b >= m
  {
    if b < m {
      DivisionIsUnique(b, m, 0, b);
    }
  }

  /** May the outer loop take or go on with a packet (lines 499 to 503)? */
  predicate MayContinue(onlyControl: bool, total: nat, m: nat, buffering: bool, isControl: bool, wasLong: bool,
                        controlWaits: bool, standardWaits: bool)
    requires m > 0
  {
    || !onlyControl
    || (total > 0 && total % m != 0)
    || (!buffering && controlWaits)
    || (buffering && isControl)
    || (buffering && !isControl && wasLong && controlWaits && !standardWaits && total < m)
  }

  /** In a control-only call standard bytes never fill more than the fragment they are in: either
      the standard bytes written so far all lie in the current fragment, or no standard packet
      can follow any more. */
  ghost predicate StandardBytesBounded(std: nat, total: nat, m: nat, buffering: bool, isControl: bool,
                                       controlWaits: bool, standardWaits: bool)
    requires m > 0
  {
    && std <= total && std <= m
    && (std > 0 && ((buffering && !isControl) || standardWaits) ==> total % m == 0 || std <= total % m)
    && (std > 0 && !buffering && standardWaits ==> !controlWaits)
    && (std > 0 && buffering && isControl ==> !standardWaits)
    && (total > 0 && buffering && !isControl ==> !controlWaits || !standardWaits)
  }

  /** The packet of a turn of the outer loop may be written, and if it is a standard packet then
      no other packet of one of the classes waits. */
  lemma TurnMayWrite(onlyControl: bool, std: nat, total: nat, m: nat, buffering: bool, isControl: bool, wasLong: bool,
                     controlWaits: bool, standardWaits: bool)
    requires m > 0
    requires MayContinue(onlyControl, total, m, buffering, isControl, wasLong, controlWaits, standardWaits)
    requires onlyControl ==> StandardBytesBounded(std, total, m, buffering, isControl, controlWaits, standardWaits)
    ensures MayWrite(onlyControl, if buffering then isControl else controlWaits, wasLong, total, m)
    ensures onlyControl && buffering && !isControl ==> !controlWaits || !standardWaits
  {
  }

  lemma PickKeepsBound(std: nat, total: nat, m: nat, isControl: bool, controlWaits: bool, standardWaits: bool,
                       controlWaitsAfter: bool, standardWaitsAfter: bool)
    requires m > 0
    requires StandardBytesBounded(std, total, m, false, isControl, controlWaits, standardWaits)
    requires if controlWaits then standardWaitsAfter == standardWaits else standardWaits && !controlWaitsAfter
    ensures StandardBytesBounded(std, total, m, true, controlWaits, controlWaitsAfter, standardWaitsAfter)
  {
  }

  lemma ControlBytesKeepBound(std: nat, total: nat, n: nat, m: nat, controlWaits: bool, standardWaits: bool, done: bool)
    requires m > 0
    requires StandardBytesBounded(std, total, m, true, true, controlWaits, standardWaits)
    ensures StandardBytesBounded(std, total + n, m, !done, true, controlWaits, standardWaits)
  {
  }

  lemma StandardBytesKeepBound(std: nat, total: nat, n: nat, m: nat, wasLong: bool,
                               controlWaits: bool, standardWaits: bool, done: bool)
    requires m > 0
    requires StandardBytesBounded(std, total, m, true, false, controlWaits, standardWaits)
    requires MayWrite(true, false, wasLong, total, m) && InFragment(total, n, m)
    requires !controlWaits || !standardWaits
    ensures StandardBytesBounded(std + n, total + n, m, !done, false, controlWaits, standardWaits)
  {
    if total < m {
      DivisionIsUnique(total, m, 0, total);
    }
    InsideFragment(total, n, m);
  }

  // ----- how much a call writes -----

  /** What waits to be sent: bytes of control packets, the rest of a standard packet in the buffer, and bytes of
      queued standard packets. */
  datatype Waiting = Waiting(control: nat, rest: nat, standard: nat)

  /** The tests of the loop see what waits. */
  predicate Seen(now: Waiting, buffering: bool, isControl: bool, controlWaits: bool, standardWaits: bool) {
    && (now.rest > 0 <==> buffering && !isControl)
    && (now.standard > 0 <==> standardWaits)
    && (now.control > 0 <==> controlWaits || (buffering && isControl))
  }

  /** `n` bytes of one class go out: of the standard packet in the buffer, else of control packets, else of queued
      standard packets, one of which is then in the buffer. */
  predicate Moves(before: Waiting, n: nat, isControl: bool, after: Waiting) {
    if before.rest > 0 then !isControl && n <= before.rest && after == before.(rest := before.rest - n)
    else if before.control > 0 then isControl && n <= before.control && after == before.(control := before.control - n)
    else !isControl && after.control == 0 && after.rest + after.standard + n == before.standard
  }

  /** Picking a packet moves nothing; the bytes written of it then do. */
  lemma MovesOn(before: Waiting, picked: Waiting, n: nat, isControl: bool, after: Waiting)
    requires Moves(before, 0, isControl, picked)
    requires picked == if isControl then after.(control := after.control + n) else after.(rest := after.rest + n)
    ensures Moves(before, n, isControl, after)
  {
  }

  /** When a control-only call starts a standard packet: one waits, none is in the buffer, and the control bytes
      outstanding end neither at nor behind the budget, and not at a border of fragments. */
  predicate TakesStandard(was: Waiting, budget: nat, m: nat)
    requires m > 0
  {
    was.standard > 0 && was.rest == 0 && was.control % m != 0 && was.control < budget
  }

  /** Where a call stands that began with `was` waiting and has written so much; `took` tells whether it has started a
      standard packet. */
  ghost predicate Sofar(onlyControl: bool, wasLong: bool, took: bool, std: nat, ctl: nat, now: Waiting, was: Waiting,
                        budget: nat, m: nat)
    requires m > 0
  {
    && ctl + now.control == was.control && std + now.rest + now.standard == was.rest + was.standard
    && (|| (now.control == was.control && now.standard == was.standard)
        || (now.rest == 0 && now.standard == was.standard)
        || (now.control == 0 && std >= was.rest))
    && (onlyControl ==>
          && std <= m && (took ==> TakesStandard(was, budget, m))
          && (if was.rest > 0 then std + ctl > 0 ==> wasLong && was.control > 0 && was.standard == 0
              else if took then now.control == 0 && was.control % m + std <= m
              else std == 0 && now.rest == 0))
  }

  lemma TurnKeepsSofar(onlyControl: bool, wasLong: bool, took: bool, std: nat, ctl: nat, now: Waiting, was: Waiting,
                       budget: nat, m: nat, buffering: bool, isControl: bool, controlWaits: bool, standardWaits: bool,
                       takes: bool, n: nat, isControl': bool, after: Waiting)
    requires m > 0 && std + ctl < budget && Sofar(onlyControl, wasLong, took, std, ctl, now, was, budget, m)
    requires Seen(now, buffering, isControl, controlWaits, standardWaits) && (buffering || controlWaits || standardWaits)
    requires MayContinue(onlyControl, std + ctl, m, buffering, isControl, wasLong, controlWaits, standardWaits)
    requires Moves(now, n, isControl', after) && (takes <==> !buffering && !controlWaits)
    requires onlyControl && !isControl' ==> InFragment(std + ctl, n, m) && std + n <= m
    ensures Sofar(onlyControl, wasLong, took || takes, if isControl' then std else std + n, if isControl' then ctl + n else ctl,
                  after, was, budget, m)
  {
    if onlyControl && was.rest == 0 && std > 0 {
      InsideFragment(was.control, std, m);
    }
  }

  /** What a call has written that ended by itself, under a budget of whole fragments. */
  predicate WrittenExactly(onlyControl: bool, wasLong: bool, std: nat, ctl: nat, was: Waiting, budget: nat, m: nat)
    requires m > 0
  {
    if !onlyControl then
      var rest := Min(was.rest, budget);
      ctl == Min(was.control, budget - rest) && std == rest + Min(was.standard, budget - rest - ctl)
    else if was.rest > 0 then
      var moves := wasLong && was.control > 0 && was.standard == 0 && budget > 0;
      && std == (if moves then Min(was.rest, m) else 0)
      && ctl + std == (if moves && was.rest <= m then Min(was.rest + was.control, budget) else std)
    else
      && ctl == Min(was.control, budget)
      && std == if was.control < budget && was.control % m != 0 then Min(was.standard, m - was.control % m) else 0
  }

  lemma EndedIsExact(onlyControl: bool, wasLong: bool, took: bool, std: nat, ctl: nat, now: Waiting, was: Waiting,
                     budget: nat, m: nat, buffering: bool, isControl: bool, controlWaits: bool, standardWaits: bool)
    requires m > 0 && budget % m == 0 && std + ctl <= budget
    requires Sofar(onlyControl, wasLong, took, std, ctl, now, was, budget, m)
    requires Seen(now, buffering, isControl, controlWaits, standardWaits)
    requires || std + ctl >= budget
             || !(buffering || controlWaits || standardWaits)
             || !MayContinue(onlyControl, std + ctl, m, buffering, isControl, wasLong, controlWaits, standardWaits)
    ensures WrittenExactly(onlyControl, wasLong, std, ctl, was, budget, m)
  {
    if onlyControl {
      if budget > 0 {
        MultipleAtLeast(budget, m);
      }
      if was.rest > 0 {
        if 0 < std {
          MultipleInFragment(std, m);
        }
      } else {
        EndedControlOnly(wasLong, took, std, ctl, now, was, budget, m, buffering, isControl, controlWaits, standardWaits);
      }
    }
  }

  /** A call that ends by itself has started a standard packet exactly under the condition. */
  lemma EndedTakesStandard(wasLong: bool, took: bool, std: nat, ctl: nat, now: Waiting, was: Waiting, budget: nat, m: nat,
                           buffering: bool, isControl: bool, controlWaits: bool, standardWaits: bool)
    requires m > 0 && Sofar(true, wasLong, took, std, ctl, now, was, budget, m)
    requires Seen(now, buffering, isControl, controlWaits, standardWaits)
    requires || std + ctl >= budget
             || !(buffering || controlWaits || standardWaits)
             || !MayContinue(true, std + ctl, m, buffering, isControl, wasLong, controlWaits, standardWaits)
    ensures took <==> TakesStandard(was, budget, m)
  {
  }

  lemma MultipleInFragment(n: nat, m: nat)
    requires 0 < n <= m
    ensures n % m == 0 <==> n == m
  {
    if n < m {
      DivisionIsUnique(n, m, 0, n);
    } else {
      DivisionIsUnique(n, m, 1, 0);
    }
  }

  /** The numbers behind it: `r` is where the control bytes end in their fragment, and `t` where the call ends. */
  lemma EndedInFragment(std: nat, ctl: nat, now: Waiting, was: Waiting, took: bool, budget: nat, m: nat, r: nat, t: nat)
    requires m > 0 && r < m && r <= was.control && ctl + now.control == was.control && std + now.rest + now.standard == was.standard
    requires std + ctl <= budget && (was.control < budget && r != 0 ==> was.control - r + m <= budget)
    requires took ==> was.standard > 0 && r != 0 && was.control < budget && now.control == 0 && r + std <= m
    requires !took ==> std == 0 && now.rest == 0
    requires took && std > 0 ==> t == if r + std == m then 0 else r + std
    requires std == 0 && now.control == 0 ==> t == r
    requires std + ctl >= budget || (now.control == 0 && (now.rest + now.standard == 0 || std + ctl == 0 || t == 0))
    ensures ctl == Min(was.control, budget)
    ensures std == if was.control < budget && r != 0 then Min(was.standard, m - r) else 0
  {
  }

  /** The tests of the loop that have ended it, with `t` for the place in the fragment. */
  lemma EndedTests(total: nat, m: nat, t: nat, took: bool, now: Waiting, budget: nat, wasLong: bool,
                   buffering: bool, isControl: bool, controlWaits: bool, standardWaits: bool)
    requires m > 0 && t == total % m && Seen(now, buffering, isControl, controlWaits, standardWaits)
    requires !took ==> now.rest == 0
    requires took ==> now.control == 0
    requires || total >= budget
             || !(buffering || controlWaits || standardWaits)
             || !MayContinue(true, total, m, buffering, isControl, wasLong, controlWaits, standardWaits)
    ensures total >= budget || (now.control == 0 && (now.rest + now.standard == 0 || total == 0 || t == 0))
  {
  }

  lemma RemainderFits(n: nat, m: nat)
    requires m > 0
    ensures n % m < m && n % m <= n
  {
    if n < m {
      DivisionIsUnique(n, m, 0, n);
    }
  }

  lemma PlaceOfEnd(std: nat, control: nat, m: nat, r: nat, t: nat)
    requires m > 0 && r == control % m && t == (std + control) % m
    ensures r < m && r <= control && (std == 0 ==> t == r)
    ensures r + std <= m ==> t == if r + std == m then 0 else r + std
  {
    RemainderFits(control, m);
    if std == 0 {
    } else if r + std <= m {
      assert std + control == control + std;
      InsideFragment(control, std, m);
    }
  }

  lemma NextBorder(n: nat, b: nat, m: nat, r: nat)
    requires m > 0 && n < b && b % m == 0 && r == n % m
    ensures r != 0 ==> n - r + m <= b
  {
    BorderWithin(n, b, m);
  }

  /** The same with `r` and `t` for the places in their fragments. */
  lemma EndedAt(wasLong: bool, took: bool, std: nat, ctl: nat, now: Waiting, was: Waiting, budget: nat, m: nat, r: nat, t: nat)
    requires m > 0 && std + ctl <= budget && was.rest == 0 && r == was.control % m
    requires Sofar(true, wasLong, took, std, ctl, now, was, budget, m)
    requires r < m && r <= was.control && (was.control < budget && r != 0 ==> was.control - r + m <= budget)
    requires now.control == 0 ==> (std == 0 ==> t == r) && (r + std <= m ==> t == if r + std == m then 0 else r + std)
    requires std + ctl >= budget || (now.control == 0 && (now.rest + now.standard == 0 || std + ctl == 0 || t == 0))
    ensures WrittenExactly(true, wasLong, std, ctl, was, budget, m)
  {
    EndedInFragment(std, ctl, now, was, took, budget, m, r, t);
    hide Min;
  }

  lemma EndedControlOnly(wasLong: bool, took: bool, std: nat, ctl: nat, now: Waiting, was: Waiting, budget: nat, m: nat,
                         buffering: bool, isControl: bool, controlWaits: bool, standardWaits: bool)
    requires m > 0 && budget % m == 0 && std + ctl <= budget && was.rest == 0
    requires Sofar(true, wasLong, took, std, ctl, now, was, budget, m)
    requires Seen(now, buffering, isControl, controlWaits, standardWaits)
    requires || std + ctl >= budget
             || !(buffering || controlWaits || standardWaits)
             || !MayContinue(true, std + ctl, m, buffering, isControl, wasLong, controlWaits, standardWaits)
    ensures WrittenExactly(true, wasLong, std, ctl, was, budget, m)
  {
    EndedTests(std + ctl, m, (std + ctl) % m, took, now, budget, wasLong, buffering, isControl, controlWaits, standardWaits);
    PlaceOfEnd(std, was.control, m, was.control % m, (std + was.control) % m);
    if was.control < budget {
      NextBorder(was.control, budget, m, was.control % m);
    }
    EndedAt(wasLong, took, std, ctl, now, was, budget, m, was.control % m, (std + ctl) % m);
  }

  // ----- bytes needed to keep the pace -----

  const SLOW: nat := 90_000
  const FAST: nat := 45_000

  function TimeTotal(accelerate: bool): nat { if accelerate then FAST else SLOW }

  /** `due` is the time left times the size of the packet; the packet is on schedule when the
      bytes left, times the whole time, are no more. */
  predicate OnSchedule(due: nat, accelerate: bool, left: nat) {
    due >= TimeTotal(accelerate) * left
  }

  /** What GetNeededBytes answers for a standard packet of `total` bytes of which `left` are unsent. */
  function NeededBytes(accelerate: bool, elapsed: uint32, gap: uint32, left: uint32, total: uint32): int
    requires left <= total
  {
    if elapsed >= TimeTotal(accelerate) then left
    else Needed((TimeTotal(accelerate) - elapsed) * total, accelerate, gap, left)
  }

  function Needed(due: nat, accelerate: bool, gap: uint32, left: uint32): int {
    if OnSchedule(due, accelerate, left) then (if gap > 20_000 then 1 else 0)
    else
      var decval := due / TimeTotal(accelerate);
      if decval == 0 then left
      else if decval < left then left - decval + 1
      else 1
  }

  /** The answer never exceeds what is left of the packet. A packet behind schedule is back on
      schedule after exactly that many bytes, and two bytes fewer leave it behind. The last
      `return 1` of the function is never reached: the quotient stays below the bytes left. */
  lemma NeededIsExact(due: nat, accelerate: bool, gap: uint32, left: uint32)
    requires left > 0
    ensures Needed(due, accelerate, gap, left) <= left
    ensures !OnSchedule(due, accelerate, left) ==>
              var n := Needed(due, accelerate, gap, left);
              && n > 0
              && due / TimeTotal(accelerate) < left
              && OnSchedule(due, accelerate, left - n)
              && (n >= 2 ==> !OnSchedule(due, accelerate, left - (n - 2)))
  {
    if accelerate {
      assert FAST * (due / FAST) <= due < FAST * (due / FAST + 1);
    } else {
      assert SLOW * (due / SLOW) <= due < SLOW * (due / SLOW + 1);
    }
  }
}
