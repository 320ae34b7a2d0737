// Little-endian bignums over 32-bit limbs, and the memory they are built in.
module Limbs {
  import opened Arithmetic
  import opened Powers

  const BETA: nat := 0x1_0000_0000
  type Limb = x: int | 0 <= x < 0x1_0000_0000
  type TwoLimb = x: int | 0 <= x < 0x1_0000_0000_0000_0000

  // The bignum limbs[off..off+len]; a quotient lies inside a larger buffer.
  datatype Mpn = Mpn(room: array<Limb>, off: nat, len: nat)
  {
    ghost predicate Valid() { off + len <= room.Length }
    function Limbs(): seq<Limb>
      requires Valid()
      reads room
    {
      room[off..off + len]
    }
  }

  // malloc: any request may be refused, and a refusal is remembered.
  class Allocator {
    var refused: bool

    constructor ()
      ensures !refused
    {
      refused := false;
    }

    method NewLimbs(n: nat) returns (p: array?<Limb>)
      requires !refused
      modifies this
      ensures refused <==> p == null
      ensures p != null ==> fresh(p) && p.Length == n
    {
      if * {
        refused := true;
        p := null;
      } else {
        p := new Limb[n];
      }
    }

    method NewChars(n: nat) returns (p: array?<char>)
      requires !refused
      modifies this
      ensures refused <==> p == null
      ensures p != null ==> fresh(p) && p.Length == n
    {
      if * {
        refused := true;
        p := null;
      } else {
        p := new char[n];
      }
    }
  }

  ghost function B(e: nat): nat { Pow(BETA, e) }

  ghost function Val(s: seq<Limb>): nat
  {
    if s == [] then 0 else s[0] + BETA * Val(s[1..])
  }

  ghost predicate Normalised(s: seq<Limb>)
  {
    s != [] ==> s[|s| - 1] != 0
  }

  lemma BStep(e: nat)
    ensures B(e + 1) == BETA * B(e) && B(e) > 0
  {
    PowPos(BETA, e);
  }

  lemma BAdd(e: nat, f: nat)
    ensures B(e + f) == B(e) * B(f)
  {
    PowAdd(BETA, e, f);
  }

  lemma ValEmpty()
    ensures Val([]) == 0 && B(0) == 1
  {
  }

  lemma {:induction false} ValConcat(s: seq<Limb>, t: seq<Limb>)
    ensures Val(s + t) == Val(s) + B(|s|) * Val(t)
  {
    if s == [] {
      assert s + t == t;
    } else {
      assert (s + t)[1..] == s[1..] + t;
      ValConcat(s[1..], t);
      calc {
        Val(s + t);
        s[0] + BETA * (Val(s[1..]) + B(|s| - 1) * Val(t));
        { BStep(|s| - 1); Assoc(BETA, B(|s| - 1), Val(t)); }
        s[0] + BETA * Val(s[1..]) + B(|s|) * Val(t);
      }
    }
  }

  lemma ValSingle(x: Limb)
    ensures Val([x]) == x
  {
    assert [x][1..] == [];
  }

  lemma ValSnoc(s: seq<Limb>, x: Limb)
    ensures Val(s + [x]) == Val(s) + x * B(|s|)
  {
    ValSingle(x);
    ValConcat(s, [x]);
  }

  lemma CarryArith(lo: int, hi: int, x: int, p: int, p1: int)
    requires x == lo + BETA * hi && p1 == BETA * p
    ensures lo * p + hi * p1 == x * p
  {
    Distrib(lo, BETA * hi, p);
    assert (BETA * hi) * p == hi * (BETA * p);
  }

  lemma ValCons(x: Limb, s: seq<Limb>)
    ensures Val([x] + s) == x + BETA * Val(s)
  {
    assert ([x] + s)[1..] == s;
  }

  lemma ValAt(s: seq<Limb>, i: nat)
    requires i < |s|
    ensures Val(s) == Val(s[..i]) + B(i) * (s[i] + BETA * Val(s[i + 1..]))
  {
    hide Val, B;
    var hi := [s[i]] + s[i + 1..];
    assert s == s[..i] + hi;
    ValConcat(s[..i], hi);
    ValCons(s[i], s[i + 1..]);
  }

  // Storing the low limb of x and carrying the high one keeps the value.
  lemma ValCarry(s: seq<Limb>, lo: Limb, hi: int, x: int)
    requires x == lo + BETA * hi
    ensures Val(s + [lo]) + hi * B(|s| + 1) == Val(s) + x * B(|s|)
  {
    ValSnoc(s, lo);
    BStep(|s|);
    CarryArith(lo, hi, x, B(|s|), B(|s| + 1));
  }

  lemma {:induction false} ValBound(s: seq<Limb>)
    ensures Val(s) < B(|s|)
  {
    if s != [] {
      ValBound(s[1..]);
      BStep(|s| - 1);
    }
  }

  lemma ValInit(s: seq<Limb>)
    requires s != []
    ensures var n := |s| - 1; Val(s) == Val(s[..n]) + s[n] * B(n) && Val(s[..n]) < B(n)
  {
    var n := |s| - 1;
    assert s == s[..n] + [s[n]];
    ValSnoc(s[..n], s[n]);
    ValBound(s[..n]);
  }

  lemma {:induction false} ValZeros(s: seq<Limb>)
    requires forall i :: 0 <= i < |s| ==> s[i] == 0
    ensures Val(s) == 0
  {
    if s != [] { ValZeros(s[1..]); }
  }

  // A nonzero top limb bounds the value from below.
  lemma ValTop(s: seq<Limb>)
    requires s != [] && s[|s| - 1] != 0
    ensures B(|s| - 1) <= Val(s)
  {
    var t := s[..|s| - 1];
    assert s == t + [s[|s| - 1]];
    ValSnoc(t, s[|s| - 1]);
    MulMono(B(|t|), 1, s[|s| - 1]);
  }

  lemma ValDropTopZero(s: seq<Limb>)
    requires s != [] && s[|s| - 1] == 0
    ensures Val(s[..|s| - 1]) == Val(s)
  {
    assert s == s[..|s| - 1] + [0];
    ValSnoc(s[..|s| - 1], 0);
  }

  // A normalised bignum is determined by its value.
  lemma {:induction false} ValInjective(s: seq<Limb>, t: seq<Limb>)
    requires Normalised(s) && Normalised(t) && Val(s) == Val(t)
    ensures s == t
  {
    if s == [] || t == [] {
      if s != [] { ValTop(s); PowPos(BETA, |s| - 1); }
      if t != [] { ValTop(t); PowPos(BETA, |t| - 1); }
    } else {
      assert s[0] == t[0] && Val(s[1..]) == Val(t[1..]);
      ValInjective(s[1..], t[1..]);
      assert s == [s[0]] + s[1..] && t == [t[0]] + t[1..];
    }
  }

  // A product of limbs leaves room for two more limbs to be added.
  lemma ProductFits(x: Limb, y: Limb, u: Limb, v: Limb)
    ensures 0 <= x * y && x * y + u + v < BETA * BETA
  {
    MulMono(x, y, 0xFFFF_FFFF);
    MulMono(0xFFFF_FFFF, x, 0xFFFF_FFFF);
    MulMono(x, 0, y);
  }

  // Drops high zero limbs: the normalisation loop every bignum routine ends with.
  method Normalise(p: array<Limb>, off: nat, len: nat) returns (n: nat)
    requires off + len <= p.Length
    ensures n <= len && Normalised(p[off..off + n])
    ensures Val(p[off..off + n]) == Val(p[off..off + len])
  {
    n := len;
    while n > 0 && p[off + n - 1] == 0
      invariant n <= len
      invariant Val(p[off..off + n]) == Val(p[off..off + len])
    {
      ValDropTopZero(p[off..off + n]);
      assert p[off..off + n][..n - 1] == p[off..off + n - 1];
      n := n - 1;
    }
  }
}
