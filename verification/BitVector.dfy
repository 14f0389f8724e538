/** The packed bit vector with its cached answer to "are all bits true". */
module BitVector {
  import PartStatus

  /** The tables s_posMask and s_negMask. */
  function PosMask(i: nat): bv8
    requires i < 8
  {
    if i == 0 then 0x01 else if i == 1 then 0x02 else if i == 2 then 0x04 else if i == 3 then 0x08
    else if i == 4 then 0x10 else if i == 5 then 0x20 else if i == 6 then 0x40 else 0x80
  }

  function NegMask(i: nat): bv8
    requires i < 8
  {
    if i == 0 then 0xFE else if i == 1 then 0xFD else if i == 2 then 0xFB else if i == 3 then 0xF7
    else if i == 4 then 0xEF else if i == 5 then 0xDF else if i == 6 then 0xBF else 0x7F
  }

  predicate Test(b: bv8, i: nat)
    requires i < 8
  {
    b & PosMask(i) != 0
  }

  lemma TestAfterSet(b: bv8, i: nat, j: nat)
    requires i < 8 && j < 8
    ensures Test(b | PosMask(i), j) == (i == j || Test(b, j))
  {
  }

  lemma TestAfterClear(b: bv8, i: nat, j: nat)
    requires i < 8 && j < 8
    ensures Test(b & NegMask(i), j) == (i != j && Test(b, j))
  {
  }

  lemma TestOfConstant(j: nat)
    requires j < 8
    ensures Test(0xFF, j) && !Test(0, j)
  {
  }

  /** A byte is 0xFF exactly when all its bits are set. */
  lemma FullByte(b: bv8)
    ensures b == 0xFF <==> forall j :: 0 <= j < 8 ==> Test(b, j)
  {
    if forall j :: 0 <= j < 8 ==> Test(b, j) {
      assert Test(b, 0) && Test(b, 1) && Test(b, 2) && Test(b, 3);
      assert Test(b, 4) && Test(b, 5) && Test(b, 6) && Test(b, 7);
    } else if b == 0xFF {
      forall j | 0 <= j < 8
        ensures Test(b, j)
      {
        TestOfConstant(j);
      }
    }
  }

  /** The mask test reads the bit that the decode loop shifts out. */
  lemma TestIsBit(b: bv8, i: nat)
    requires i < 8
    ensures Test(b, i) == PartStatus.Bit(b, i)
  {
  }

  // ---- the list of booleans that the bytes stand for ------------------------------

  function BytesFor(n: nat): nat {
    n / 8 + if n % 8 == 0 then 0 else 1
  }

  function Bits(bytes: seq<bv8>, n: nat): (r: seq<bool>)
    requires |bytes| == BytesFor(n)
    ensures |r| == n
  {
    seq(n, j requires 0 <= j < n => Test(bytes[j / 8], j % 8))
  }

  ghost predicate AllSet(bits: seq<bool>) {
    forall j :: 0 <= j < |bits| ==> bits[j]
  }

  /** Setting or clearing a bit with the masks. */
  function Written(b: bv8, i: nat, value: bool): bv8
    requires i < 8
  {
    if value then b | PosMask(i) else b & NegMask(i)
  }

  lemma TestAfterWrite(b: bv8, i: nat, j: nat, value: bool)
    requires i < 8 && j < 8
    ensures Test(Written(b, i, value), j) == if i == j then value else Test(b, j)
  {
    TestAfterSet(b, i, j);
    TestAfterClear(b, i, j);
    hide Test, PosMask, NegMask;
  }

  lemma SamePlace(j: nat, k: nat)
    ensures j == k <==> j / 8 == k / 8 && j % 8 == k % 8
  {
  }

  /** One byte operation writes exactly one bit. */
  lemma BitsAfterWrite(bytes: seq<bv8>, n: nat, idx: nat, value: bool)
    requires |bytes| == BytesFor(n) && idx < n
    ensures Bits(bytes[idx / 8 := Written(bytes[idx / 8], idx % 8, value)], n) == Bits(bytes, n)[idx := value]
  {
    hide Test, Written;
    var after := Bits(bytes[idx / 8 := Written(bytes[idx / 8], idx % 8, value)], n);
    forall j | 0 <= j < n
      ensures after[j] == Bits(bytes, n)[idx := value][j]
    {
      SamePlace(j, idx);
      TestAfterWrite(bytes[idx / 8], idx % 8, j % 8, value);
    }
  }

  lemma BitsOfConstant(n: nat, value: bool)
    ensures Bits(seq(BytesFor(n), _ => if value then 0xFF else 0), n) == seq(n, _ => value)
  {
    var bits := Bits(seq(BytesFor(n), _ => if value then 0xFF else 0), n);
    forall j | 0 <= j < n
      ensures bits[j] == value
    {
      TestOfConstant(j % 8);
    }
  }

  ghost predicate BytesFull(bytes: seq<bv8>, n: nat)
    requires n <= |bytes|
  {
    forall i :: 0 <= i < n ==> bytes[i] == 0xFF
  }

  ghost predicate SetFrom(bits: seq<bool>, from: nat) {
    forall j :: from <= j < |bits| ==> bits[j]
  }

  /** The whole bytes are full, and the bits of a last partial byte are set. */
  ghost predicate AllFull(bytes: seq<bv8>, n: nat)
    requires |bytes| == BytesFor(n)
  {
    BytesFull(bytes, n / 8) && SetFrom(Bits(bytes, n), n - n % 8)
  }

  /** Checking bytewise is checking all the bits. */
  lemma AllFullIsAllSet(bytes: seq<bv8>, n: nat)
    requires |bytes| == BytesFor(n)
    ensures AllFull(bytes, n) <==> AllSet(Bits(bytes, n))
  {
    hide Test;
    if AllFull(bytes, n) {
      forall j | 0 <= j < n
        ensures Bits(bytes, n)[j]
      {
        if j < n - n % 8 {
          assert j / 8 < n / 8;
          FullByte(bytes[j / 8]);
        }
      }
    }
    if AllSet(Bits(bytes, n)) {
      forall i | 0 <= i < n / 8
        ensures bytes[i] == 0xFF
      {
        forall k | 0 <= k < 8
          ensures Test(bytes[i], k)
        {
          assert (8 * i + k) / 8 == i && (8 * i + k) % 8 == k;
          assert Bits(bytes, n)[8 * i + k];
        }
        FullByte(bytes[i]);
      }
    }
  }

  /** The buffer format is the part status format: both put part j into bit j mod 8 of byte j div 8. */
  lemma BufferIsPartStatus(bytes: seq<bv8>, n: nat)
    requires |bytes| == BytesFor(n)
    ensures Bits(bytes, n) == PartStatus.Decoded(n, bytes)
  {
    hide Test, PartStatus.Bit;
    forall j | 0 <= j < n
      ensures Bits(bytes, n)[j] == PartStatus.Decoded(n, bytes)[j]
    {
      TestIsBit(bytes[j / 8], j % 8);
    }
  }

  type Answer = n: nat | n <= 2

  // ---- the object -------------------------------------------------------------------

  class BitVector {
    var bits: nat
    var vector: array<bv8>
    /** 0: not all true, 1: all true, 2: not known. */
    var allTrue: Answer

    ghost predicate Shaped()
      reads `bits, `vector
    {
      vector.Length == BytesFor(bits)
    }

    ghost function Contents(): seq<bool>
      requires Shaped()
      reads this, vector
    {
      Bits(vector[..], bits)
    }

    /** A cached answer is the conjunction of the bits; an empty vector may have been given any answer. */
    ghost predicate Cached()
      requires Shaped()
      reads this, vector
    {
      allTrue == 2 || bits == 0 || (allTrue == 1 && AllSet(Contents())) || (allTrue == 0 && !AllSet(Contents()))
    }

    ghost predicate Valid()
      reads this, vector
    {
      Shaped() && Cached()
    }

    constructor ()
      ensures Valid() && Contents() == [] && allTrue == 0 && fresh(vector)
    {
      bits, allTrue := 0, 0;
      vector := new bv8[0];
    }

    function Size(): nat
      reads `bits
    {
      bits
    }

    /** Outside the vector every bit is false. */
    method Get(idx: nat) returns (r: bool)
      requires Shaped()
      ensures r <==> idx < |Contents()| && Contents()[idx]
    {
      if idx >= bits {
        return false;
      }
      r := Test(vector[idx / 8], idx % 8);
    }

    method WriteBit(idx: nat, value: bool)
      requires Shaped() && idx < bits
      modifies vector
      ensures Shaped() && Contents() == old(Contents())[idx := value]
    {
      BitsAfterWrite(vector[..], bits, idx, value);
      hide Bits, Written;
      ghost var before := vector[..];
      var bidx := idx / 8;
      vector[bidx] := Written(vector[bidx], idx % 8, value);
      assert vector[..] == before[bidx := Written(before[bidx], idx % 8, value)];
    }

    /** Outside the vector nothing happens. */
    method Set(idx: nat, value: bool)
      requires Valid()
      modifies `allTrue, vector
      ensures Valid()
      ensures Contents() == if idx < old(bits) then old(Contents())[idx := value] else old(Contents())
      // a "no" is known at once; a "yes" only if nothing was false before
      ensures allTrue == if idx >= bits then old(allTrue) else if !value then 0 else if old(allTrue) == 0 then 2 else old(allTrue)
    {
      if idx >= bits {
        return;
      }
      hide Bits;
      WriteBit(idx, value);
      if value {
        if allTrue == 0 {
          allTrue := 2;
        }
      } else {
        allTrue := 0;
        assert !Contents()[idx];
      }
    }

    method Clear()
      modifies this
      ensures Valid() && Contents() == [] && allTrue == 0 && fresh(vector)
    {
      bits, allTrue := 0, 0;
      vector := new bv8[0];
    }

    method SetSize(newSize: nat, value: bool)
      modifies this
      ensures Valid() && Contents() == seq(newSize, _ => value) && fresh(vector)
      ensures allTrue == if newSize > 0 && value then 1 else 0
    {
      if newSize == 0 {
        Clear();
        return;
      }
      BitsOfConstant(newSize, value);
      hide Bits;
      bits := newSize;
      vector := new bv8[newSize / 8 + if newSize % 8 == 0 then 0 else 1](_ => if value then 0xFF else 0);
      assert vector[..] == seq(BytesFor(newSize), _ => if value then 0xFF else 0);
      allTrue := if value then 1 else 0;
      assert Contents()[0] == value;
    }

    /** Replaces the bytes; the answer is not known then. */
    method SetBuffer(src: seq<bv8>)
      requires Shaped() && |src| >= vector.Length
      modifies `allTrue, vector
      ensures Valid() && Contents() == Bits(src[..BytesFor(bits)], bits) && allTrue == 2
    {
      for i := 0 to vector.Length
        invariant vector[..i] == src[..i]
      {
        vector[i] := src[i];
      }
      assert vector[..] == src[..vector.Length];
      allTrue := 2;
    }

    /** The bits of a partial last byte, one by one. */
    method FalseInLastByte() returns (foundFalse: bool)
      requires Shaped()
      ensures foundFalse <==> !SetFrom(Contents(), bits - bits % 8)
    {
      foundFalse := false;
      hide Bits;
      var i := bits - bits % 8;
      while !foundFalse && i < bits
        invariant bits - bits % 8 <= i <= bits
        invariant foundFalse <==> exists j :: bits - bits % 8 <= j < i && !Contents()[j]
      {
        var bit := Get(i);
        foundFalse := !bit;
        i := i + 1;
      }
    }

    method FalseInFullBytes() returns (foundFalse: bool)
      requires Shaped()
      ensures foundFalse <==> !BytesFull(vector[..], bits / 8)
    {
      foundFalse := false;
      var i := 0;
      while !foundFalse && i < bits / 8
        invariant 0 <= i <= bits / 8
        invariant foundFalse <==> exists j :: 0 <= j < i && vector[..][j] != 0xFF
      {
        foundFalse := vector[i] != 0xFF;
        i := i + 1;
      }
    }

    method FindFalse() returns (foundFalse: bool)
      requires Shaped()
      ensures foundFalse <==> !AllFull(vector[..], bits)
    {
      hide BytesFull, SetFrom, Bits;
      foundFalse := FalseInLastByte();
      if !foundFalse {
        foundFalse := FalseInFullBytes();
      }
    }

    /** The conjunction of the bits; for the empty vector whatever the cache says, and true if it is not known. */
    method AllTrue() returns (r: bool)
      requires Valid()
      modifies `allTrue
      ensures Valid() && Contents() == old(Contents())
      ensures bits > 0 ==> (r <==> AllSet(Contents()))
      ensures bits == 0 ==> (r <==> old(allTrue) != 0)
      ensures r <==> allTrue == 1
      ensures old(allTrue) != 2 ==> allTrue == old(allTrue)
    {
      if allTrue == 2 {
        AllFullIsAllSet(vector[..], bits);
        hide AllFull, AllSet, Bits;
        var foundFalse := FindFalse();
        allTrue := if foundFalse then 0 else 1;
      }
      r := allTrue == 1;
    }

    /** Sets every bit but leaves the cache: it is right afterwards unless it held a "no". */
    method SetAllTrue()
      requires Valid()
      modifies vector
      ensures Shaped() && Contents() == seq(bits, _ => true)
      ensures Valid() <==> bits == 0 || allTrue != 0
    {
      BitsOfConstant(bits, true);
      hide Bits;
      for i := 0 to vector.Length
        invariant forall k :: 0 <= k < i ==> vector[k] == 0xFF
      {
        vector[i] := 0xFF;
      }
      assert vector[..] == seq(BytesFor(bits), _ => 0xFF);
    }
  }
}
