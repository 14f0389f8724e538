/** Little-endian numbers, as CFile and PokeUInt32 write them. */
module Encoding {
  import opened Words

  function LittleEndian(n: nat, width: nat): (b: seq<uint8>)
    ensures |b| == width
  {
    if width == 0 then [] else [n % 0x100] + LittleEndian(n / 0x100, width - 1)
  }

  /** The lowest byte comes first. */
  lemma FourBytes(a: uint8, b: uint8, c: uint8, d: uint8)
    ensures LittleEndian(a as nat + 0x100 * b as nat + 0x1_0000 * c as nat + 0x100_0000 * d as nat, 4) == [a, b, c, d]
  {
    var n3 := d as nat;
    var n2 := c as nat + 0x100 * n3;
    var n1 := b as nat + 0x100 * n2;
    assert LittleEndian(n3, 1) == [d] + LittleEndian(0, 0);
    assert LittleEndian(n2, 2) == [c] + LittleEndian(n3, 1);
    assert LittleEndian(n1, 3) == [b] + LittleEndian(n2, 2);
    assert LittleEndian(a as nat + 0x100 * n1, 4) == [a] + LittleEndian(n1, 3);
  }

  function Number(b: seq<uint8>): nat {
    if b == [] then 0 else b[0] as nat + 0x100 * Number(b[1..])
  }

  function Limit(width: nat): nat {
    if width == 0 then 1 else 0x100 * Limit(width - 1)
  }

  /** Reading back what was written gives the number, if it fits the width. */
  lemma {:induction false} NumberOfLittleEndian(n: nat, width: nat)
    requires n < Limit(width)
    ensures Number(LittleEndian(n, width)) == n
  {
    if width > 0 {
      NumberOfLittleEndian(n / 0x100, width - 1);
      assert LittleEndian(n, width)[1..] == LittleEndian(n / 0x100, width - 1);
    }
  }

  lemma Limits()
    ensures Limit(1) == 0x100 && Limit(2) == TWO16 && Limit(4) == TWO32 && Limit(8) == TWO64
  {
    assert Limit(1) == 0x100 * Limit(0);
    assert Limit(2) == 0x100 * Limit(1);
    assert Limit(4) == 0x1_0000 * Limit(2) by { assert Limit(3) == 0x100 * Limit(2); }
    assert Limit(6) == 0x1_0000 * Limit(4) by { assert Limit(5) == 0x100 * Limit(4); }
    assert Limit(8) == 0x1_0000 * Limit(6) by { assert Limit(7) == 0x100 * Limit(6); }
  }

  lemma LittleEndianInjective(m: nat, n: nat, width: nat)
    requires m < Limit(width) && n < Limit(width) && LittleEndian(m, width) == LittleEndian(n, width)
    ensures m == n
  {
    NumberOfLittleEndian(m, width);
    NumberOfLittleEndian(n, width);
  }
}
