/** The part status a client sends, and the arithmetic of the part frequencies. */
module PartStatus {
  import opened Words

  // ---- the decode loop of ProcessFileStatus ----------------------------------

  /** Bit i of a byte, counting from the low end. */
  predicate Bit(b: bv8, i: nat)
    requires i < 8
  {
    (b >> i) & 1 != 0
  }

  function BytesFor(n: nat): nat {
    (n + 7) / 8
  }

  /** Just as many bytes as hold n bits. */
  lemma BytesForTells(n: nat)
    ensures n <= 8 * BytesFor(n) < n + 8
  {
  }

  /** What n parts are after reading as many bytes as there are: unread parts stay false. */
  function Decoded(n: nat, data: seq<bv8>): (s: seq<bool>)
    ensures |s| == n
  {
    seq(n, j requires 0 <= j < n => j / 8 < |data| && Bit(data[j / 8], j % 8))
  }

  /** The part status up to `done` is the decoded one. */
  ghost predicate DecodedUpTo(status: seq<bool>, n: nat, data: seq<bv8>, done: nat)
    requires done <= n
  {
    && |status| == n
    && (forall j :: 0 <= j < done ==> status[j] == Decoded(n, data)[j])
    && (forall j :: done <= j < n ==> !status[j])
  }

  /**
   * Reads exactly one byte per eight parts and sets part j from bit j mod 8 of byte j div 8;
   * `complete` is false when the packet ends too early.
   */
  method ReadStatus(n: nat, data: seq<bv8>) returns (status: seq<bool>, read: nat, complete: bool)
    ensures status == Decoded(n, data)
    ensures complete <==> BytesFor(n) <= |data|
    ensures read == if complete then BytesFor(n) else |data|
  {
    status := seq(n, _ => false);
    read := 0;
    var done := 0;
    while done != n
      invariant 0 <= done <= n && read <= |data| && read == BytesFor(done)
      invariant done == n || done == 8 * read
      invariant DecodedUpTo(status, n, data, done)
      decreases n - done
    {
      if read == |data| {
        return status, read, false;
      }
      status := ReadByte(n, data, read, status);
      done := if done + 8 <= n then done + 8 else n;
      read := read + 1;
    }
    complete := true;
  }

  /** The inner loop: up to eight parts from one byte. */
  method ReadByte(n: nat, data: seq<bv8>, at: nat, before: seq<bool>) returns (status: seq<bool>)
    requires at < |data| && 8 * at < n && DecodedUpTo(before, n, data, 8 * at)
    ensures DecodedUpTo(status, n, data, if 8 * at + 8 <= n then 8 * at + 8 else n)
  {
    status := before;
    var done, i := 8 * at, 0;
    hide Bit;
    while i < 8
      invariant 0 <= i <= 8 && done == 8 * at + i <= n && (done < n || i == 8)
      invariant DecodedUpTo(status, n, data, done)
    {
      assert done / 8 == at && done % 8 == i;
      status := status[done := Bit(data[at], i)];
      done := done + 1;
      i := i + 1;
      if done == n {
        break;
      }
    }
  }

  // ---- part frequencies --------------------------------------------------------

  /** UpdatePartsFrequency on the 16-bit counters of a file with `parts` parts. */
  function Updated(freq: seq<uint16>, parts: nat, status: seq<bool>, increment: bool): (r: seq<uint16>)
    ensures |r| == parts
  {
    var base := if |freq| == parts then freq else seq(parts, _ => 0);
    if |freq| != parts && !increment then base
    else if |status| != parts then base
    else seq(parts, i requires 0 <= i < parts => if status[i] then Stepped(base[i], increment) else base[i])
  }

  /** One up or down, modulo 2^16. */
  function Stepped(n: uint16, increment: bool): uint16 {
    if increment then (if n + 1 == TWO16 then 0 else n + 1) else if n == 0 then TWO16 - 1 else n - 1
  }

  function Wrapped(n: nat): uint16 {
    n % TWO16
  }

  lemma SteppedIsExact(n: nat)
    ensures Stepped(Wrapped(n), true) == Wrapped(n + 1)
    ensures Stepped(Wrapped(n + 1), false) == Wrapped(n)
  {
  }

  /** A counter that is right for n holders; counters that are not set up stand for nobody. */
  predicate IsCount(freq: seq<uint16>, parts: nat, part: nat, n: nat)
    requires part < parts
  {
    if |freq| == parts then freq[part] == Wrapped(n) else n == 0
  }

  /** Going up counts a holder that was missing; going down takes one away. */
  lemma UpdatedIsCount(freq: seq<uint16>, parts: nat, status: seq<bool>, increment: bool, part: nat, others: nat)
    requires part < parts
    requires var own := if |status| == parts && status[part] then 1 else 0;
             IsCount(freq, parts, part, if increment then others else others + own)
    ensures var own := if |status| == parts && status[part] then 1 else 0;
            IsCount(Updated(freq, parts, status, increment), parts, part, if increment then others + own else others)
  {
    SteppedIsExact(others);
    hide Stepped;
  }

  /** The loop over the counters. */
  method UpdateCounters(freq: seq<uint16>, parts: nat, status: seq<bool>, increment: bool) returns (r: seq<uint16>)
    ensures r == Updated(freq, parts, status, increment)
  {
    r := freq;
    if |r| != parts {
      r := seq(parts, _ => 0);
      if !increment {
        return;
      }
    }
    if |status| != parts {
      return;
    }
    hide Stepped;
    ghost var base := r;
    for i := 0 to parts
      invariant |r| == parts
      invariant forall j :: 0 <= j < i ==> r[j] == if status[j] then Stepped(base[j], increment) else base[j]
      invariant forall j :: i <= j < parts ==> r[j] == base[j]
    {
      if status[i] {
        r := r[i := Stepped(r[i], increment)];
      }
    }
  }

  /** The first n parts whose counter is not 0. */
  ghost function Available(freq: seq<uint16>, n: nat): set<nat>
    requires n <= |freq|
  {
    set part: nat | part < n && freq[part] != 0
  }

  /** The loop that counts the available parts. */
  method CountAvailable(freq: seq<uint16>) returns (n: nat)
    ensures n == |Available(freq, |freq|)|
  {
    n := 0;
    for i := 0 to |freq|
      invariant n == |Available(freq, i)|
    {
      if freq[i] != 0 {
        assert Available(freq, i + 1) == Available(freq, i) + {i};
        n := n + 1;
      } else {
        assert Available(freq, i + 1) == Available(freq, i);
      }
    }
  }
}
