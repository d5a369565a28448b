/** Addresses and blocks of addresses, as the netip package of Go holds them: a family and a
    number of 32 or 128 bits, and a number of leading bits. */
module Net {
  datatype Family = V4 | V6

  function Width(family: Family): nat {
    if family.V4? then 32 else 128
  }

  function Pow2(n: nat): (p: nat)
    ensures p >= 1
  {
    if n == 0 then 1 else 2 * Pow2(n - 1)
  }

  lemma {:induction false} Pow2Sum(a: nat, b: nat)
    ensures Pow2(a + b) == Pow2(a) * Pow2(b)
  {
    if b > 0 {
      Pow2Sum(a, b - 1);
      assert Pow2(a + b) == 2 * Pow2(a + (b - 1));
    }
  }

  lemma Pow2Of32()
    ensures Pow2(32) == 0x1_0000_0000
  {
    Pow2Sum(8, 8);
    Pow2Sum(16, 16);
    assert Pow2(8) == 256;
  }

  datatype RawAddr = Addr(family: Family, number: nat)
  type Addr = a: RawAddr | a.number < Pow2(Width(a.family)) witness Addr(V4, 0)

  datatype RawPrefix = Prefix(addr: Addr, bits: nat)
  type Prefix = p: RawPrefix | p.bits <= Width(p.addr.family) witness Prefix(Addr(V4, 0), 0)

  /** The number with its last bits dropped. */
  function Shr(number: nat, bits: nat): nat {
    if bits == 0 then number else Shr(number / 2, bits - 1)
  }

  /** The number with zero bits added behind it. */
  function Shl(number: nat, bits: nat): nat {
    if bits == 0 then number else 2 * Shl(number, bits - 1)
  }

  /** An address is in a block of its family when their leading bits agree. */
  predicate InPrefix(p: Prefix, a: Addr) {
    var free := Width(p.addr.family) - p.bits;
    p.addr.family == a.family && Shr(p.addr.number, free) == Shr(a.number, free)
  }

  /** The addresses of a block follow each other: those with its leading bits. */
  lemma InPrefixExactly(p: Prefix, a: Addr)
    ensures var free := Width(p.addr.family) - p.bits;
            InPrefix(p, a) <==> && a.family == p.addr.family
                                && Shl(Shr(p.addr.number, free), free) <= a.number
                                && a.number < Shl(Shr(p.addr.number, free), free) + Pow2(free)
  {
    ShrExactly(a.number, Shr(p.addr.number, Width(p.addr.family) - p.bits), Width(p.addr.family) - p.bits);
  }

  lemma {:induction false} ShrExactly(number: nat, top: nat, bits: nat)
    ensures Shr(number, bits) == top <==> Shl(top, bits) <= number < Shl(top, bits) + Pow2(bits)
  {
    if bits > 0 {
      ShrExactly(number / 2, top, bits - 1);
    }
  }

  lemma {:induction false} ShlIsTimes(number: nat, bits: nat)
    ensures Shl(number, bits) == number * Pow2(bits)
  {
    if bits > 0 {
      ShlIsTimes(number, bits - 1);
      assert 2 * (number * Pow2(bits - 1)) == number * (2 * Pow2(bits - 1));
    }
  }

  /** It holds every address of its family. */
  ghost predicate HoldsItsFamily(p: Prefix) {
    forall a: Addr :: a.family == p.addr.family ==> InPrefix(p, a)
  }

  /** Such a block is one of length zero. */
  lemma HoldsItsFamilyExactly(p: Prefix)
    ensures HoldsItsFamily(p) <==> p.bits == 0
  {
    var family, free := p.addr.family, Width(p.addr.family) - p.bits;
    if p.bits == 0 {
      forall a: Addr | a.family == family ensures InPrefix(p, a) {
        NoBitsLeft(a.number, free);
        NoBitsLeft(p.addr.number, free);
      }
    } else {
      var low, high := RawAddr.Addr(family, 0), RawAddr.Addr(family, Pow2(Width(family) - 1));
      TopBit(p.bits - 1, free);
      ZeroShifted(free);
      assert !(InPrefix(p, low) && InPrefix(p, high));
    }
  }

  lemma NoBitsLeft(number: nat, bits: nat)
    requires number < Pow2(bits)
    ensures Shr(number, bits) == 0
  {
    ShlIsTimes(0, bits);
    ShrExactly(number, 0, bits);
  }

  lemma ZeroShifted(bits: nat)
    ensures Shr(0, bits) == 0
  {
    NoBitsLeft(0, bits);
  }

  lemma {:induction false} TopBit(kept: nat, dropped: nat)
    ensures Shr(Pow2(kept + dropped), dropped) == Pow2(kept)
  {
    if dropped > 0 {
      TopBit(kept, dropped - 1);
      assert Pow2(kept + dropped) / 2 == Pow2(kept + (dropped - 1));
    }
  }

  /** Some block of the list holds the address. */
  predicate Covers(blocks: seq<Prefix>, a: Addr) {
    exists i :: 0 <= i < |blocks| && InPrefix(blocks[i], a)
  }

  lemma {:induction false} ShrShl(number: nat, bits: nat)
    ensures Shr(Shl(number, bits), bits) == number
  {
    if bits > 0 {
      ShrShl(number, bits - 1);
    }
  }

  lemma {:induction false} ShrSum(number: nat, a: nat, b: nat)
    ensures Shr(number, a + b) == Shr(Shr(number, a), b)
  {
    if a > 0 {
      ShrSum(number / 2, a - 1, b);
    }
  }

  lemma {:induction false} ShlSum(number: nat, a: nat, b: nat)
    ensures Shl(number, a + b) == Shl(Shl(number, a), b)
  {
    if b > 0 {
      ShlSum(number, a, b - 1);
    }
  }

  lemma {:induction false} ShlTwice(number: nat, bits: nat)
    ensures Shl(2 * number, bits) == 2 * Shl(number, bits)
  {
    if bits > 0 {
      ShlTwice(number, bits - 1);
    }
  }

  /** Dropping bits and putting zeros back loses less than those bits could hold. */
  lemma {:induction false} ShlShr(number: nat, bits: nat)
    ensures Shl(Shr(number, bits), bits) <= number < Shl(Shr(number, bits), bits) + Pow2(bits)
  {
    if bits > 0 {
      ShlShr(number / 2, bits - 1);
    }
  }
}
