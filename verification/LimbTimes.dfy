// Bignums times a factor of at most one limb: multiplication by a digit, and left shifts.
module LimbTimes {
  import opened Arithmetic
  import opened Powers
  import opened Limbs

  const HALF: nat := 0x8000_0000

  lemma DivMod(a: nat, d: nat)
    requires d > 0
    ensures a == (a / d) * d + a % d && a % d < d
  {
  }

  lemma DivBelow(a: nat, d: nat, k: nat)
    requires d > 0 && a < k * d
    ensures a / d < k
  {
    DivMod(a, d);
    if k <= a / d { MulMono(d, k, a / d); }
  }

  // done, carried over by carry, is p * src.
  ghost predicate TimesDone(done: seq<Limb>, src: seq<Limb>, p: nat, carry: int)
  {
    |done| == |src| && Val(done) + carry * B(|src|) == p * Val(src)
  }

  lemma TimesArith(v: int, x: int, p: nat, q: int, carry: int, y: int, v': int)
    requires y == carry + x * p && v' == v + x * q
    ensures y * q - carry * q == p * v' - p * v
  {
    Distrib(carry, x * p, q);
    assert p * (v + x * q) == p * v + p * (x * q);
    assert p * (x * q) == (x * p) * q;
  }

  lemma TimesStep(done: seq<Limb>, src: seq<Limb>, p: nat, carry: int, x: Limb, y: int, lo: Limb, hi: int)
    requires TimesDone(done, src, p, carry)
    requires y == carry + x * p && y == lo + BETA * hi
    ensures TimesDone(done + [lo], src + [x], p, hi)
  {
    ValCarry(done, lo, hi, y);
    ValSnoc(src, x);
    TimesArith(Val(src), x, p, B(|src|), carry, y, Val(src + [x]));
  }

  lemma HalfIsPower()
    ensures Pow(2, 31) == HALF
    ensures Pow(2, 1) == 2 && Pow(2, 2) == 4 && Pow(2, 4) == 16 && Pow(2, 8) == 0x100 && Pow(2, 16) == 0x10000
  {
    PowAdd(2, 1, 1); PowAdd(2, 2, 2); PowAdd(2, 4, 4); PowAdd(2, 8, 8);
    PowAdd(2, 16, 8); PowAdd(2, 24, 4); PowAdd(2, 28, 2); PowAdd(2, 30, 1);
  }

  lemma PowTwo31(s: nat)
    requires s < 32
    ensures 1 <= Pow(2, s) <= HALF
  {
    hide Pow;
    PowMonoExp(2, s, 31);
    PowPos(2, s);
    HalfIsPower();
  }

  lemma TimesBelow(x: Limb, f: nat, carry: nat)
    requires carry < f <= BETA
    ensures 0 <= carry + x * f < BETA * BETA
    ensures (carry + x * f) / BETA < f
  {
    MulMono(f, x, BETA - 1);
    MulMono(f, 0, x);
    var y := carry + x * f;
    assert y < BETA * f;
    DivBelow(y, BETA, f);
  }

  // One limb of a multiplication by a factor of at most one limb: the accumulator never exceeds 64 bits.
  // A left shift by s bits is a multiplication by 2^s, and carries fewer than s bits over.
  method TimesLimb(x: Limb, f: nat, carry0: Limb) returns (lo: Limb, carry: Limb)
    requires carry0 < f <= BETA
    ensures lo + BETA * carry == carry0 + x * f
    ensures carry < f
  {
    TimesBelow(x, f, carry0);
    var accu: TwoLimb := carry0 + x * f;
    lo := accu % BETA;
    carry := accu / BETA;
  }

  // dest[off..off+|src|] := the low limbs of src << s; the bits shifted out are returned.
  method ShiftLeft(src: seq<Limb>, s: nat, dest: array<Limb>, off: nat) returns (carry: Limb)
    requires s < 32 && off + |src| <= dest.Length
    modifies dest
    ensures TimesDone(dest[off..off + |src|], src, Pow(2, s), carry)
    ensures forall k :: 0 <= k < dest.Length && !(off <= k < off + |src|) ==> dest[k] == old(dest[k])
  {
    carry := 0;
    PowTwo31(s);
    var j := 0;
    while j < |src|
      invariant 0 <= j <= |src| && carry < Pow(2, s)
      invariant forall k :: 0 <= k < dest.Length && !(off <= k < off + j) ==> dest[k] == old(dest[k])
      invariant TimesDone(dest[off..off + j], src[..j], Pow(2, s), carry)
    {
      ghost var done, c0 := dest[off..off + j], carry;
      var lo, hi := TimesLimb(src[j], Pow(2, s), carry);
      TimesStep(done, src[..j], Pow(2, s), c0, src[j], lo + BETA * hi, lo, hi);
      dest[off + j], carry := lo, hi;
      assert dest[off..off + j + 1] == done + [lo];
      assert src[..j + 1] == src[..j] + [src[j]];
      j := j + 1;
    }
    assert src[..|src|] == src;
  }

  // p[..len] := the low limbs of p[..len] * f, in place; the high limb of the product is returned.
  method TimesInPlace(p: array<Limb>, len: nat, f: nat) returns (carry: Limb)
    requires 0 < f <= BETA && len <= p.Length
    modifies p
    ensures TimesDone(p[..len], old(p[..len]), f, carry)
    ensures forall k :: len <= k < p.Length ==> p[k] == old(p[k])
  {
    carry := 0;
    var j := 0;
    ghost var src := p[..len];
    while j < len
      invariant 0 <= j <= len && carry < f
      invariant forall k :: j <= k < p.Length ==> p[k] == old(p[k])
      invariant TimesDone(p[..j], src[..j], f, carry)
    {
      ghost var done, c0 := p[..j], carry;
      assert p[j] == src[j];
      var lo, hi := TimesLimb(p[j], f, carry);
      TimesStep(done, src[..j], f, c0, src[j], lo + BETA * hi, lo, hi);
      p[j], carry := lo, hi;
      assert p[..j + 1] == done + [lo];
      assert src[..j + 1] == src[..j] + [src[j]];
      j := j + 1;
    }
    assert src[..len] == src;
  }
}
