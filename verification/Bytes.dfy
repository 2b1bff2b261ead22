/** Bytes and their bits, counted from the most significant one. */
module Bytes {

  type Bytes = seq<bv8>

  /** Bit `k` of a byte; bit 0 is the most significant one. */
  predicate Bit(b: bv8, k: nat)
    requires k < 8
  {
    b & Single(k) != 0
  }

  function Single(k: nat): bv8
    requires k < 8
  {
    match k
    case 0 => 0x80
    case 1 => 0x40
    case 2 => 0x20
    case 3 => 0x10
    case 4 => 0x08
    case 5 => 0x04
    case 6 => 0x02
    case _ => 0x01
  }

  /** The mask that keeps the first `r` bits of a byte. */
  function Mask(r: nat): bv8
    requires r <= 8
  {
    match r
    case 0 => 0x00
    case 1 => 0x80
    case 2 => 0xc0
    case 3 => 0xe0
    case 4 => 0xf0
    case 5 => 0xf8
    case 6 => 0xfc
    case 7 => 0xfe
    case _ => 0xff
  }

  /** The table above is the shift that the address code writes. */
  lemma MaskIsShift(r: nat)
    requires r <= 8
    ensures Mask(r) == (0xff as bv8) << (8 - r)
  {}

  predicate SameBits(a: bv8, b: bv8, r: nat)
    requires r <= 8
  {
    forall k :: 0 <= k < r ==> Bit(a, k) == Bit(b, k)
  }

  lemma BitOfMasked(a: bv8, r: nat, k: nat)
    requires r <= 8 && k < 8
    ensures Bit(a & Mask(r), k) == (k < r && Bit(a, k))
  {
    if r == 0 {
    } else if r == 1 {
    } else if r == 2 {
    } else if r == 3 {
    } else if r == 4 {
    } else if r == 5 {
    } else if r == 6 {
    } else if r == 7 {
    }
  }

  lemma BitsDetermineByte(x: bv8, y: bv8)
    requires SameBits(x, y, 8)
    ensures x == y
  {
    assert Bit(x, 0) == Bit(y, 0) && Bit(x, 1) == Bit(y, 1) && Bit(x, 2) == Bit(y, 2) && Bit(x, 3) == Bit(y, 3);
    assert Bit(x, 4) == Bit(y, 4) && Bit(x, 5) == Bit(y, 5) && Bit(x, 6) == Bit(y, 6) && Bit(x, 7) == Bit(y, 7);
  }

  /** Two bytes are equal under a prefix mask exactly when they share that many leading bits. */
  lemma MaskKeepsFirstBits(a: bv8, b: bv8, r: nat)
    requires r <= 8
    ensures (a & Mask(r) == b & Mask(r)) <==> SameBits(a, b, r)
  {
    var x, y := a & Mask(r), b & Mask(r);
    forall k | 0 <= k < 8
      ensures Bit(x, k) == (k < r && Bit(a, k)) && Bit(y, k) == (k < r && Bit(b, k))
    {
      BitOfMasked(a, r, k);
      BitOfMasked(b, r, k);
    }
    if SameBits(a, b, r) {
      BitsDetermineByte(x, y);
    }
  }

  lemma FlippedBit(b: bv8, k: nat, j: nat)
    requires k < 8 && j < 8
    ensures Bit(b ^ Single(k), j) == (if j == k then !Bit(b, j) else Bit(b, j))
  {
    if k == 0 {
    } else if k == 1 {
    } else if k == 2 {
    } else if k == 3 {
    } else if k == 4 {
    } else if k == 5 {
    } else if k == 6 {
    }
  }

  lemma BitOfOr(b: bv8, k: nat, j: nat)
    requires k < 8 && j < 8
    ensures Bit(b | Single(k), j) == (j == k || Bit(b, j))
  {
    if k == 0 {
    } else if k == 1 {
    } else if k == 2 {
    } else if k == 3 {
    } else if k == 4 {
    } else if k == 5 {
    } else if k == 6 {
    }
  }

  lemma AndOfPower(a: bv8, b: bv8, s: bv8)
    requires s & (s - 1) == 0
    ensures (a & b) & s != 0 <==> a & s != 0 && b & s != 0
  {}

  lemma SingleIsPower(k: nat)
    requires k < 8
    ensures Single(k) & (Single(k) - 1) == 0
  {}

  lemma BitOfAnd(a: bv8, b: bv8, k: nat)
    requires k < 8
    ensures Bit(a & b, k) == (Bit(a, k) && Bit(b, k))
  {
    SingleIsPower(k);
    hide Single;
    AndOfPower(a, b, Single(k));
  }

  lemma BitOfOnes(k: nat)
    requires k < 8
    ensures Bit(0xff, k)
  {}

  /** Zero bytes, as `resize` and `vec![0; n]` produce them. */
  function Zeros(n: nat): (z: Bytes)
    ensures |z| == n
    ensures forall i :: 0 <= i < n ==> z[i] == 0
  {
    seq(n, _ => 0 as bv8)
  }

  function Concat(parts: seq<Bytes>): Bytes
  {
    if parts == [] then [] else parts[0] + Concat(parts[1..])
  }

  type Octet = n: int | 0 <= n < 256

  lemma Successor(b: bv8)
    requires b as int < 255
    ensures (b + 1) as int == b as int + 1
  {}

  /** The byte with a given value. */
  function ByteOf(n: Octet): (b: bv8)
    ensures b as int == n
  {
    if n == 0 then 0
    else
      Successor(ByteOf(n - 1));
      ByteOf(n - 1) + 1
  }

  /** The bytes as numbers, for printing and for length fields. */
  function Octets(b: Bytes): (o: seq<Octet>)
    ensures |o| == |b|
  {
    seq(|b|, i requires 0 <= i < |b| => b[i] as int)
  }

  lemma OctetsInjective(a: Bytes, b: Bytes)
    requires Octets(a) == Octets(b)
    ensures a == b
  {
    assert |a| == |Octets(a)| == |b|;
    forall i | 0 <= i < |a|
      ensures a[i] == b[i]
    {
      assert Octets(a)[i] == Octets(b)[i];
    }
  }
}
