// Long division of bignums with the quotient stored over the remainder.
module LongDivision {
  import opened Wrappers
  import opened Arithmetic
  import opened Powers
  import opened Rounding
  import opened Limbs
  import opened LimbTimes

  // ------------------------------------------------ the quotient digit estimate

  // q is the largest digit whose product with the two top limbs v of the divisor
  // does not exceed the three top limbs u of the remainder.
  ghost predicate TopDigit(q: int, v: int, u: int)
  {
    0 <= q < BETA && q * v <= u && (q == BETA - 1 || u < (q + 1) * v)
  }

  lemma EstimateArith(q: int, b1: int, b2: int, v: int, c1: int, r21: int, r0: int, u: int)
    requires v == BETA * b1 + b2 && r21 == q * b1 + c1 && u == BETA * r21 + r0
    ensures q * v - u == q * b2 - (BETA * c1 + r0)
    ensures (q - 1) * v == q * v - v && (q - 2) * v == q * v - 2 * v && (q + 1) * v == q * v + v
  {
    assert q * (BETA * b1 + b2) == BETA * (q * b1) + q * b2;
  }

  lemma NextDigitTooBig(num: int, q: int, b1: int, b2: int, v: int, r0: int, u: int)
    requires v == BETA * b1 + b2 && u == BETA * num + r0 && r0 < BETA && 0 <= b2
    requires num < (q + 1) * b1 && 0 <= q
    ensures u < (q + 1) * v
  {
    assert (q + 1) * v == BETA * ((q + 1) * b1) + (q + 1) * b2 by {
      assert (q + 1) * (BETA * b1 + b2) == BETA * ((q + 1) * b1) + (q + 1) * b2;
    }
    MulMono(q + 1, 0, b2);
  }

  lemma TwiceLowered(q: nat, b2: nat, t: nat)
    requires q * b2 > t + b2
    ensures q >= 2
  {
    if q < 2 { MulMono(b2, q, 1); }
  }

  // When the two top limbs leave a limb or more beyond the largest digit, that digit it is.
  lemma LargestDigit(r2: Limb, r1: Limb, r0: Limb, b1: Limb, b2: Limb, c1: Limb)
    requires r2 >= b1 && c1 == (r1 + b1) % BETA && (r2 > b1 || c1 < b1)
    ensures TopDigit(BETA - 1, BETA * b1 + b2, BETA * (BETA * r2 + r1) + r0)
  {
    var q, num := BETA - 1, BETA * r2 + r1;
    assert num - q * b1 >= BETA;
    EstimateArith(q, b1, b2, BETA * b1 + b2, num - q * b1, num, r0, BETA * num + r0);
  }

  // The trial digit from the three top limbs r2, r1, r0 of the remainder and the two top limbs b1, b2 of
  // the divisor: a two-limb division, lowered at most twice.
  method EstimateDigit(r2: Limb, r1: Limb, r0: Limb, b1: Limb, b2: Limb) returns (q: Limb)
    requires HALF <= b1
    ensures TopDigit(q, BETA * b1 + b2, BETA * (BETA * r2 + r1) + r0)
  {
    ghost var v, u := BETA * b1 + b2, BETA * (BETA * r2 + r1) + r0;
    var c1: Limb := 0;
    var num: TwoLimb := BETA * r2 + r1;
    if r2 < b1 {
      DivMod(num, b1);
      DivBelow(num, b1, BETA);
      q, c1 := num / b1, num % b1;
      Distrib(q, 1, b1);
      NextDigitTooBig(num, q, b1, b2, v, r0, u);
    } else {
      q := 0xFFFF_FFFF;
      // 32-bit wrap-around of r1 + b1 shows as a sum below b1.
      c1 := (r1 + b1) % BETA;
      if r2 > b1 || c1 < b1 {
        LargestDigit(r2, r1, r0, b1, b2, c1);
        return;
      }
      assert num == q * b1 + c1;
    }
    q := LowerDigit(q, c1, num, r0, b1, b2);
  }

  // Lowers the digit while its product with b2 exceeds the remainder's next limb.
  method LowerDigit(q0: Limb, c1: Limb, ghost num: nat, r0: Limb, b1: Limb, b2: Limb) returns (q: Limb)
    requires HALF <= b1 && num == q0 * b1 + c1
    requires q0 == BETA - 1 || BETA * num + r0 < (q0 + 1) * (BETA * b1 + b2)
    ensures TopDigit(q, BETA * b1 + b2, BETA * num + r0)
  {
    q := q0;
    EstimateArith(q, b1, b2, BETA * b1 + b2, c1, num, r0, BETA * num + r0);
    ProductFits(b2, q, 0, 0);
    var c2: TwoLimb := BETA * c1 + r0;
    var c3: TwoLimb := b2 * q;
    assert c3 == q * b2;
    if c3 > c2 {
      // The digit stays nonnegative because c3 > 0, and c3 > v needs q >= 2.
      assert q0 > 0;
      q := q - 1;
      if c3 - c2 > BETA * b1 + b2 {
        TwiceLowered(q0, b2, BETA * b1);
        q := q - 1;
      }
    }
  }

  // Any such digit is the true quotient digit of w by b, or one more.
  lemma EstimateBounds(w: int, b: int, u: int, v: int, p: int, q: int)
    requires p > 0 && u * p <= w < (u + 1) * p && v * p <= b < (v + 1) * p
    requires BETA * HALF <= v && 0 <= u && w < BETA * b && TopDigit(q, v, u)
    ensures w < (q + 1) * b
    ensures q > 0 ==> (q - 1) * b <= w
  {
    if q < BETA - 1 {
      calc {
        w;
        < (u + 1) * p;
        <= { MulMono(p, u + 1, (q + 1) * v); } ((q + 1) * v) * p;
        == { Assoc(q + 1, v, p); } (q + 1) * (v * p);
        <= { MulMono(q + 1, v * p, b); } (q + 1) * b;
      }
    } else {
      assert (q + 1) * b == BETA * b;
    }
    if q > 0 {
      calc {
        (q - 1) * b;
        <= { MulMono(q - 1, b, (v + 1) * p); } (q - 1) * ((v + 1) * p);
        == { Assoc(q - 1, v + 1, p); } ((q - 1) * (v + 1)) * p;
        <= { assert (q - 1) * (v + 1) == q * v - v + q - 1; MulMono(p, (q - 1) * (v + 1), u); } u * p;
        <= w;
      }
    }
  }

  // --------------------------------------------------- subtracting q * b, adding b back

  // now is was - q * b, owing carry to the next limb.
  ghost predicate SubDone(now: seq<Limb>, was: seq<Limb>, b: seq<Limb>, q: nat, carry: int)
  {
    |now| == |was| == |b| && Val(now) + q * Val(b) == Val(was) + carry * B(|b|)
  }

  lemma SubArith(q: int, bi: int, d: int, d': int, c: int, c': int, p: int, p1: int, vb: int, vb': int)
    requires p1 == BETA * p && vb' == vb + bi * p && d' + q * bi == d - c + BETA * c'
    ensures d' * p + q * vb' - q * vb == d * p - c * p + c' * p1
  {
    assert q * (vb + bi * p) == q * vb + (q * bi) * p;
    Distrib(d', q * bi, p);
    Distrib(d - c, BETA * c', p);
    Distrib(d, -c, p);
    assert (BETA * c') * p == c' * (BETA * p);
  }

  lemma SubStep(now: seq<Limb>, was: seq<Limb>, b: seq<Limb>, q: nat, c: int, d: Limb, bi: Limb, d': Limb, c': int)
    requires SubDone(now, was, b, q, c)
    requires d' + q * bi == d - c + BETA * c'
    ensures SubDone(now + [d'], was + [d], b + [bi], q, c')
  {
    ValSnoc(now, d');
    ValSnoc(was, d);
    ValSnoc(b, bi);
    BStep(|b|);
    SubArith(q, bi, d, d', c, c', B(|b|), B(|b| + 1), Val(b), Val(b + [bi]));
  }

  // One limb of the subtraction, computed on complements so that the borrow is a carry.
  method SubLimb(d: Limb, bi: Limb, q: Limb, c: Limb) returns (d': Limb, c': Limb)
    requires c <= q
    ensures d' + q * bi == d - c + BETA * c'
    ensures c' <= q
  {
    ProductFits(q, bi, c, BETA - 1 - d);
    MulMono(q, bi, BETA - 1);
    var carry: TwoLimb := c + q * bi + (BETA - 1 - d);
    d' := BETA - 1 - carry % BETA;
    c' := carry / BETA;
  }

  // r[j..j+|b|] -= q * b; what must still be taken from r[j+|b|] is returned.
  method SubtractMultiple(r: array<Limb>, j: nat, b: seq<Limb>, q: Limb) returns (cr: Limb)
    requires j + |b| <= r.Length
    modifies r
    ensures SubDone(r[j..j + |b|], old(r[j..j + |b|]), b, q, cr)
    ensures forall k :: 0 <= k < r.Length && !(j <= k < j + |b|) ==> r[k] == old(r[k])
  {
    cr := 0;
    var i := 0;
    ValEmpty();
    while i < |b|
      invariant 0 <= i <= |b| && cr <= q
      invariant forall k :: 0 <= k < r.Length && !(j <= k < j + i) ==> r[k] == old(r[k])
      invariant SubDone(r[j..j + i], old(r[j..j + i]), b[..i], q, cr)
    {
      ghost var now, c0, d := r[j..j + i], cr, r[j + i];
      var d', c' := SubLimb(r[j + i], b[i], q, cr);
      SubStep(now, old(r[j..j + i]), b[..i], q, c0, d, b[i], d', c');
      r[j + i], cr := d', c';
      assert r[j..j + i + 1] == now + [d'];
      assert old(r[j..j + i + 1]) == old(r[j..j + i]) + [d];
      assert b[..i + 1] == b[..i] + [b[i]];
      i := i + 1;
    }
    assert b[..|b|] == b;
  }

  // now is was + b, except for carry.
  ghost predicate AddDone(now: seq<Limb>, was: seq<Limb>, b: seq<Limb>, carry: int)
  {
    |now| == |was| == |b| && Val(now) + carry * B(|b|) == Val(was) + Val(b)
  }

  lemma AddStep(now: seq<Limb>, was: seq<Limb>, b: seq<Limb>, c: int, d: Limb, bi: Limb, d': Limb, c': int)
    requires AddDone(now, was, b, c)
    requires d + bi + c == d' + BETA * c'
    ensures AddDone(now + [d'], was + [d], b + [bi], c')
  {
    hide Val, B;
    ValCarry(now, d', c', d + bi + c);
    ValSnoc(was, d);
    ValSnoc(b, bi);
    Distrib(d + bi, c, B(|b|));
    Distrib(d, bi, B(|b|));
  }

  // r[j..j+|b|] += b, modulo beta^|b|.
  method AddBack(r: array<Limb>, j: nat, b: seq<Limb>) returns (ghost carry: int)
    requires j + |b| <= r.Length
    modifies r
    ensures carry == 0 || carry == 1
    ensures AddDone(r[j..j + |b|], old(r[j..j + |b|]), b, carry)
    ensures forall k :: 0 <= k < r.Length && !(j <= k < j + |b|) ==> r[k] == old(r[k])
  {
    hide Val, B;
    var c := 0;
    var i := 0;
    ValEmpty();
    while i < |b|
      invariant 0 <= i <= |b| && (c == 0 || c == 1)
      invariant forall k :: 0 <= k < r.Length && !(j <= k < j + i) ==> r[k] == old(r[k])
      invariant AddDone(r[j..j + i], old(r[j..j + i]), b[..i], c)
    {
      ghost var now, c0, d := r[j..j + i], c, r[j + i];
      var source1, source2 := b[i], r[j + i];
      r[j + i] := (source1 + source2 + c) % BETA;
      // ~source2 is beta - 1 - source2.
      c := if (if c != 0 then source1 >= BETA - 1 - source2 else source1 > BETA - 1 - source2) then 1 else 0;
      AddStep(now, old(r[j..j + i]), b[..i], c0, d, b[i], r[j + i], c);
      assert r[j..j + i + 1] == now + [r[j + i]];
      assert old(r[j..j + i + 1]) == old(r[j..j + i]) + [d];
      assert b[..i + 1] == b[..i] + [b[i]];
      i := i + 1;
    }
    assert b[..|b|] == b;
    carry := c;
  }

  // --------------------------------------------------------------- one quotient digit

  lemma TopArith(low: int, p: int, v: int, x: int)
    requires x == low + p * v && 0 <= low < p
    ensures v * p <= x < (v + 1) * p
  {
    Distrib(v, 1, p);
  }

  // The value of a sequence through its two or three top limbs.
  lemma TopTwo(s: seq<Limb>)
    requires |s| >= 2
    ensures var v := BETA * s[|s| - 1] + s[|s| - 2]; var p := B(|s| - 2);
            v * p <= Val(s) < (v + 1) * p
  {
    hide Val, B;
    var n := |s| - 2;
    var low, top := s[..n], [s[n]] + [s[n + 1]];
    assert s == low + top;
    ValConcat(low, top);
    ValCons(s[n], [s[n + 1]]);
    ValSingle(s[n + 1]);
    ValBound(low);
    TopArith(Val(low), B(n), Val(top), Val(s));
  }

  lemma TopThree(s: seq<Limb>)
    requires |s| >= 3
    ensures var u := BETA * (BETA * s[|s| - 1] + s[|s| - 2]) + s[|s| - 3]; var p := B(|s| - 3);
            u * p <= Val(s) < (u + 1) * p
  {
    hide Val, B;
    var n := |s| - 3;
    var low, top := s[..n], [s[n]] + ([s[n + 1]] + [s[n + 2]]);
    assert s == low + top;
    ValConcat(low, top);
    ValCons(s[n], [s[n + 1]] + [s[n + 2]]);
    ValCons(s[n + 1], [s[n + 2]]);
    ValSingle(s[n + 2]);
    ValBound(low);
    TopArith(Val(low), B(n), Val(top), Val(s));
  }

  // Subtracting q * b from w overshoots by less than b in either direction.
  ghost predicate NearDigit(w: int, b: int, q: int)
  {
    q * b - b <= w < q * b + b
  }

  lemma EstimateNear(window: seq<Limb>, b: seq<Limb>, q: int)
    requires |b| >= 2 && |window| == |b| + 1 && b[|b| - 1] >= HALF && Val(window) < BETA * Val(b)
    requires var n := |b|; TopDigit(q, BETA * b[n - 1] + b[n - 2],
                                    BETA * (BETA * window[n] + window[n - 1]) + window[n - 2])
    ensures NearDigit(Val(window), Val(b), q) && 0 < Val(b)
  {
    var n := |b|;
    TopTwo(b);
    TopThree(window);
    PowPos(BETA, n - 2);
    PositiveDivisor(b);
    var u, v := BETA * (BETA * window[n] + window[n - 1]) + window[n - 2], BETA * b[n - 1] + b[n - 2];
    NearFromBounds(Val(window), Val(b), u, v, B(n - 2), q);
  }

  lemma NearFromBounds(w: int, b: int, u: int, v: int, p: int, q: int)
    requires p > 0 && b > 0 && u * p <= w < (u + 1) * p && v * p <= b < (v + 1) * p
    requires BETA * HALF <= v && 0 <= u && 0 <= w < BETA * b && TopDigit(q, v, u)
    ensures NearDigit(w, b, q)
  {
    EstimateBounds(w, b, u, v, p, q);
    Distrib(q, 1, b);
    Distrib(q, -1, b);
  }

  // The estimate is right, and then the discarded limb t cancels exactly; or it is one too large,
  // and then the borrow exceeds t and adding b back leaves the remainder.
  lemma DigitOutcome(w: int, low: int, t: int, now: int, b: int, qb: int, cr: int, p: int)
    requires p > 0 && w == low + t * p && now + qb == low + cr * p
    requires 0 <= now < p && 0 < b < p && qb - b <= w < qb + b
    ensures cr <= t ==> now == w - qb && 0 <= now < b
    ensures cr > t ==> now - p == w - qb && 0 <= now - p + b < b
  {
    var k := t - cr;
    ProductDifference(t, cr, p);
    if k >= 1 { MulMono(p, 1, k); }
    if k <= -2 { MulMono(p, k, -2); }
  }

  lemma ProductDifference(x: int, y: int, p: int)
    ensures x * p - y * p == p * (x - y)
  {
  }

  ghost predicate Quotient(w: int, q: int, b: int, rem: int)
  {
    w == q * b + rem && 0 <= rem < b
  }

  lemma NoAddBack(window: seq<Limb>, low: seq<Limb>, top: Limb, now: seq<Limb>, b: seq<Limb>, q: nat, cr: int)
    requires window == low + [top] && SubDone(now, low, b, q, cr) && NearDigit(Val(window), Val(b), q) && 0 < Val(b)
    requires cr <= top
    ensures Quotient(Val(window), q, Val(b), Val(now))
  {
    hide Val, B;
    ValSnoc(low, top); ValBound(now); ValBound(b);
    DigitOutcome(Val(window), Val(low), top, Val(now), Val(b), q * Val(b), cr, B(|b|));
  }

  lemma AddBackOutcome(now: int, now': int, b: int, carry: int, p: int)
    requires now' + carry * p == now + b && (carry == 0 || carry == 1)
    requires 0 <= now' < p && 0 < b < p && 0 <= now - p + b < b
    ensures now' == now - p + b
  {
  }

  lemma WithAddBack(window: seq<Limb>, low: seq<Limb>, top: Limb, now: seq<Limb>, b: seq<Limb>, q: nat, cr: int,
                    now': seq<Limb>, carry: int)
    requires window == low + [top] && SubDone(now, low, b, q, cr) && NearDigit(Val(window), Val(b), q) && 0 < Val(b)
    requires cr > top && AddDone(now', now, b, carry) && (carry == 0 || carry == 1)
    ensures Quotient(Val(window), q - 1, Val(b), Val(now'))
  {
    hide Val, B;
    ValSnoc(low, top); ValBound(now); ValBound(b); ValBound(now');
    DigitOutcome(Val(window), Val(low), top, Val(now), Val(b), q * Val(b), cr, B(|b|));
    AddBackOutcome(Val(now), Val(now'), Val(b), carry, B(|b|));
    Distrib(q, -1, Val(b));
  }

  lemma ZeroTop(w: int, low: nat, top: nat, p: nat, b: int)
    requires w == low + top * p && w < b < p
    ensures w == low
  {
    if top > 0 { MulMono(p, 1, top); }
  }

  lemma ZeroDigit(window: seq<Limb>, low: seq<Limb>, top: Limb, b: seq<Limb>)
    requires window == low + [top] && |low| == |b| && NearDigit(Val(window), Val(b), 0)
    ensures Quotient(Val(window), 0, Val(b), Val(low))
  {
    ValSnoc(low, top);
    ValBound(b);
    ZeroTop(Val(window), Val(low), top, B(|b|), Val(b));
  }

  // Divides the limbs r[j..j+n+1] by b in place: the remainder stays in r[j..j+n] and the
  // quotient digit takes the place of r[j+n].
  method DivideStep(r: array<Limb>, j: nat, b: seq<Limb>)
    requires |b| >= 2 && b[|b| - 1] >= HALF && j + |b| < r.Length
    requires Val(r[j..j + |b| + 1]) < BETA * Val(b)
    modifies r
    ensures Quotient(Val(old(r[j..j + |b| + 1])), r[j + |b|], Val(b), Val(r[j..j + |b|]))
    ensures forall k :: 0 <= k < r.Length && !(j <= k <= j + |b|) ==> r[k] == old(r[k])
  {
    hide Val, B;
    var n := |b|;
    ghost var window, low, top := r[j..j + n + 1], r[j..j + n], r[j + n];
    assert window == low + [top];
    assert window[n] == r[j + n] && window[n - 1] == r[j + n - 1] && window[n - 2] == r[j + n - 2];
    var q := EstimateDigit(r[j + n], r[j + n - 1], r[j + n - 2], b[n - 1], b[n - 2]);
    EstimateNear(window, b, q);
    if q > 0 {
      var cr := SubtractMultiple(r, j, b, q);
      ghost var now := r[j..j + n];
      if cr > r[j + n] {
        ghost var carry := AddBack(r, j, b);
        WithAddBack(window, low, top, now, b, q, cr, r[j..j + n], carry);
        q := q - 1;
      } else {
        NoAddBack(window, low, top, now, b, q, cr);
      }
    } else {
      ZeroDigit(window, low, top, b);
    }
    ghost var rem := r[j..j + n];
    r[j + n] := q;
    assert r[j..j + n] == rem;
  }

  lemma PositiveDivisor(b: seq<Limb>)
    requires b != [] && b[|b| - 1] > 0
    ensures Val(b) > 0
  {
    ValTop(b);
    PowPos(BETA, |b| - 1);
  }

  // ------------------------------------------------------------------- the division loop

  // After the digits of weight beta^k and above: quo holds them, rem what is left to divide.
  ghost predicate Dividing(a: int, rem: seq<Limb>, quo: seq<Limb>, b: seq<Limb>, k: nat)
  {
    && |rem| == |b| + k
    && a == (Val(quo) * B(k)) * Val(b) + Val(rem)
    && Val(rem) < B(k) * Val(b)
  }

  lemma WindowArith(low: nat, p: nat, w: int, vb: int, p1: int)
    requires p1 == BETA * p && p > 0 && low + p * w < p1 * vb
    ensures w < BETA * vb
  {
    assert p1 * vb == p * (BETA * vb);
    MulCancelLt(p, w, BETA * vb);
  }

  lemma WindowBelow(a: int, low: seq<Limb>, window: seq<Limb>, quo: seq<Limb>, b: seq<Limb>)
    requires Dividing(a, low + window, quo, b, |low| + 1)
    ensures Val(window) < BETA * Val(b)
  {
    ValConcat(low, window);
    BStep(|low|);
    WindowArith(Val(low), B(|low|), Val(window), Val(b), B(|low| + 1));
  }

  lemma DividingArith(quo: int, quo': int, q: int, p: int, p1: int, vb: int, low: int, w: int, w': int)
    requires p1 == BETA * p && quo' == q + BETA * quo && w == q * vb + w'
    ensures (quo * p1) * vb + (low + p * w) == (quo' * p) * vb + (low + p * w')
  {
    calc {
      (quo' * p) * vb;
      { Distrib(q, BETA * quo, p); }
      (q * p + (BETA * quo) * p) * vb;
      { Distrib(q * p, (BETA * quo) * p, vb); }
      (q * p) * vb + ((BETA * quo) * p) * vb;
      { assert (BETA * quo) * p == quo * (BETA * p); }
      (q * p) * vb + (quo * p1) * vb;
      { assert (q * p) * vb == p * (q * vb); }
      p * (q * vb) + (quo * p1) * vb;
    }
    assert p * (q * vb + w') == p * (q * vb) + p * w';
  }

  lemma DividingStep(a: int, low: seq<Limb>, window: seq<Limb>, quo: seq<Limb>, b: seq<Limb>, k: nat, q: Limb,
                     left: seq<Limb>)
    requires |low| == k && |left| == |b|
    requires Dividing(a, low + window, quo, b, k + 1)
    requires Quotient(Val(window), q, Val(b), Val(left))
    ensures Dividing(a, low + left, [q] + quo, b, k)
  {
    hide Val, B;
    var p, vb := B(k), Val(b);
    ValConcat(low, window);
    ValConcat(low, left);
    ValCons(q, quo);
    BStep(k);
    ValBound(low);
    DividingArith(Val(quo), Val([q] + quo), q, p, B(k + 1), vb, Val(low), Val(window), Val(left));
    LeftBelow(Val(low), p, Val(left), vb);
  }

  lemma LeftBelow(low: int, p: int, left: int, vb: int)
    requires low < p && 0 < p && left + 1 <= vb
    ensures low + p * left < p * vb
  {
    MulMono(p, left + 1, vb);
    Split(left + 1, left, 1, p);
  }

  // Replaces the dividend in r[..m+1] by its remainder in r[..n] and its quotient in r[n..m+1].
  method DivideLoop(r: array<Limb>, m: nat, b: seq<Limb>)
    requires |b| >= 2 && b[|b| - 1] >= HALF && m >= |b| && m < r.Length
    requires Dividing(Val(r[..m + 1]), r[..m + 1], [], b, m - |b| + 1)
    modifies r
    ensures Quotient(Val(old(r[..m + 1])), Val(r[|b|..m + 1]), Val(b), Val(r[..|b|]))
    ensures forall x :: m < x < r.Length ==> r[x] == old(r[x])
  {
    hide Val, Dividing, Quotient;
    var n := |b|;
    ghost var a := Val(r[..m + 1]);
    var k := m - n + 1;
    assert r[..n + k] == r[..m + 1] && r[n + k..m + 1] == [];
    while k > 0
      invariant 0 <= k <= m - n + 1
      invariant Dividing(a, r[..n + k], r[n + k..m + 1], b, k)
      invariant forall x :: m < x < r.Length ==> r[x] == old(r[x])
    {
      var j := k - 1;
      ghost var low, window, quo := r[..j], r[j..j + n + 1], r[n + k..m + 1];
      assert r[..n + k] == low + window;
      WindowBelow(a, low, window, quo, b);
      DivideStep(r, j, b);
      assert r[..j] == low && r[n + k..m + 1] == quo;
      DividingStep(a, low, window, quo, b, j, r[j + n], r[j..j + n]);
      assert r[..n + j] == low + r[j..j + n];
      assert r[n + j..m + 1] == [r[j + n]] + quo;
      k := j;
    }
    DividingEnd(a, r[..n], r[n..m + 1], b);
    assert r[..n + 0] == r[..n];
  }

  lemma DividingStart(rem: seq<Limb>, b: seq<Limb>, k: nat)
    requires |rem| == |b| + k && Val(rem) < B(k) * Val(b)
    ensures Dividing(Val(rem), rem, [], b, k)
  {
    assert (0 * B(k)) * Val(b) == 0;
  }

  lemma UnitFactor(x: int, one: int, y: int)
    requires one == 1
    ensures (x * one) * y == x * y && one * y == y
  {
  }

  lemma DividingEnd(a: int, rem: seq<Limb>, quo: seq<Limb>, b: seq<Limb>)
    requires Dividing(a, rem, quo, b, 0)
    ensures Quotient(a, Val(quo), Val(b), Val(rem))
  {
    UnitFactor(Val(quo), B(0), Val(b));
  }

  // ------------------------------------------------------------ single-limb division

  lemma ShortArith(a: int, q: int, den: int, rem: int, x: int, d: int, rem': int, a': int, q': int)
    requires a == q * den + rem && BETA * rem + x == d * den + rem'
    requires a' == x + BETA * a && q' == d + BETA * q
    ensures a' == q' * den + rem'
  {
    Split(q', d, BETA * q, den);
    assert (BETA * q) * den == BETA * (q * den);
  }

  lemma ShortStep(a: seq<Limb>, q: seq<Limb>, den: int, rem: int, x: Limb, d: Limb, rem': int)
    requires Quotient(Val(a), Val(q), den, rem)
    requires BETA * rem + x == d * den + rem' && 0 <= rem' < den
    ensures Quotient(Val([x] + a), Val([d] + q), den, rem')
  {
    ValCons(x, a);
    ValCons(d, q);
    ShortArith(Val(a), Val(q), den, rem, x, d, rem', Val([x] + a), Val([d] + q));
  }

  // One limb of a division by the single limb den: the quotient fits in a limb.
  method ShortLimb(rem: Limb, x: Limb, den: Limb) returns (d: Limb, rem': Limb)
    requires rem < den
    ensures BETA * rem + x == d * den + rem' && rem' < den
  {
    var num: TwoLimb := BETA * rem + x;
    DivMod(num, den);
    DivBelow(num, den, BETA);
    d, rem' := num / den, num % den;
  }

  // dest[off..off+|a|] := a / den.
  method DivideShort(a: seq<Limb>, den: Limb, dest: array<Limb>, off: nat) returns (remainder: Limb)
    requires den > 0 && off + |a| <= dest.Length
    modifies dest
    ensures Quotient(Val(a), Val(dest[off..off + |a|]), den, remainder)
    ensures forall k :: 0 <= k < dest.Length && !(off <= k < off + |a|) ==> dest[k] == old(dest[k])
  {
    remainder := 0;
    var count := |a|;
    assert a[count..] == [] && dest[off + count..off + |a|] == [];
    while count > 0
      invariant 0 <= count <= |a| && remainder < den
      invariant Quotient(Val(a[count..]), Val(dest[off + count..off + |a|]), den, remainder)
      invariant forall k :: 0 <= k < dest.Length && !(off + count <= k < off + |a|) ==> dest[k] == old(dest[k])
    {
      ghost var q, r0 := dest[off + count..off + |a|], remainder;
      var d, rem' := ShortLimb(remainder, a[count - 1], den);
      ShortStep(a[count..], q, den, r0, a[count - 1], d, rem');
      count := count - 1;
      dest[off + count], remainder := d, rem';
      assert a[count..] == [a[count]] + a[count + 1..];
      assert dest[off + count..off + |a|] == [d] + q;
    }
    assert a[0..] == a;
  }

  // ------------------------------------------------------------------- rounding the quotient

  // Limb i of r shifted left by one bit.
  function DoubledLimb(r: seq<Limb>, i: nat): Limb
  {
    (if i <= |r| && i > 0 then r[i - 1] / HALF else 0) + (if i < |r| then (r[i] * 2) % BETA else 0)
  }

  ghost function Doubled(r: seq<Limb>, n: nat): seq<Limb>
  {
    seq(n, i requires 0 <= i => DoubledLimb(r, i))
  }

  lemma DoubledArith(c: int, x: int, y: int, p: int, v: int, v': int)
    requires y == c + 2 * x && v' == v + x * p
    ensures y * p - c * p == 2 * v' - 2 * v
  {
    Split(y, c, 2 * x, p);
    assert (2 * x) * p == 2 * (x * p);
  }

  // Half a limb up, and the rest of it doubled, make twice the limb.
  lemma DoubledCarry(r: seq<Limb>, i: nat, c: int, x: int)
    requires 0 < i <= |r| && x == r[i - 1] && c == if i > 1 then r[i - 2] / HALF else 0
    ensures c + 2 * x == DoubledLimb(r, i - 1) + BETA * (x / HALF)
  {
  }

  lemma {:induction false} DoubledPrefix(r: seq<Limb>, i: nat)
    requires i <= |r|
    ensures Val(Doubled(r, i)) + (if i > 0 then r[i - 1] / HALF else 0) * B(i) == 2 * Val(r[..i])
  {
    hide Val, B, DoubledLimb;
    ValEmpty();
    if i == 0 {
      assert Doubled(r, 0) == [] && r[..0] == [];
    } else {
      DoubledPrefix(r, i - 1);
      var x, c := r[i - 1], if i > 1 then r[i - 2] / HALF else 0;
      var y := c + 2 * x;
      assert Doubled(r, i) == Doubled(r, i - 1) + [DoubledLimb(r, i - 1)];
      DoubledCarry(r, i, c, x);
      ValCarry(Doubled(r, i - 1), DoubledLimb(r, i - 1), x / HALF, y);
      assert r[..i] == r[..i - 1] + [x];
      ValSnoc(r[..i - 1], x);
      DoubledArith(c, x, y, B(i - 1), Val(r[..i - 1]), Val(r[..i]));
    }
  }

  lemma {:induction false} DoubledValue(r: seq<Limb>, n: nat)
    requires n > |r|
    ensures Val(Doubled(r, n)) == 2 * Val(r)
    decreases n
  {
    assert Doubled(r, n) == Doubled(r, n - 1) + [DoubledLimb(r, n - 1)];
    ValSnoc(Doubled(r, n - 1), DoubledLimb(r, n - 1));
    if n - 1 > |r| {
      DoubledValue(r, n - 1);
    } else {
      DoubledPrefix(r, |r|);
      assert r[..|r|] == r;
    }
  }

  lemma LessArith(low: int, low': int, p: int, x: int, y: int)
    requires low < p && 0 <= low' && 0 < p && x < y
    ensures low + p * x < low' + p * y
  {
    MulMono(p, x + 1, y);
    Split(x + 1, x, 1, p);
  }

  // The first difference from the top decides.
  lemma ValLess(s: seq<Limb>, t: seq<Limb>, i: nat)
    requires i < |s| == |t| && s[i + 1..] == t[i + 1..] && s[i] < t[i]
    ensures Val(s) < Val(t)
  {
    ValAt(s, i);
    ValAt(t, i);
    ValBound(s[..i]);
    BStep(i);
    var x, y := s[i] + BETA * Val(s[i + 1..]), t[i] + BETA * Val(t[i + 1..]);
    LessArith(Val(s[..i]), Val(t[..i]), B(i), x, y);
  }

  // The sign of 2 * r - b, found from the top limb down.
  method CompareTwice(r: seq<Limb>, b: seq<Limb>) returns (sign: int)
    requires |r| <= |b|
    ensures sign == -1 || sign == 0 || sign == 1
    ensures sign < 0 <==> 2 * Val(r) < Val(b)
    ensures sign == 0 <==> 2 * Val(r) == Val(b)
  {
    hide Val, B, DoubledLimb;
    ghost var n := |b| + 1;
    ghost var rr, bb := Doubled(r, n), b + [0];
    DoubledValue(r, n);
    ValSnoc(b, 0);
    var i := |b| + 1;
    while i > 0
      invariant 0 <= i <= |b| + 1
      invariant rr[i..] == bb[i..]
    {
      i := i - 1;
      var ri, bi := DoubledLimb(r, i), if i < |b| then b[i] else 0;
      assert rr[i] == ri && bb[i] == bi;
      if ri > bi {
        ValLess(bb, rr, i);
        return 1;
      }
      if ri < bi {
        ValLess(rr, bb, i);
        return -1;
      }
      assert rr[i..] == [ri] + rr[i + 1..] && bb[i..] == [bi] + bb[i + 1..];
    }
    assert rr == rr[0..] && bb == bb[0..];
    return 0;
  }

  // Without a further carry, the limbs above are kept.
  lemma IncrementEnd(now: seq<Limb>, was: seq<Limb>, i: nat)
    requires i < |was| == |now| && Incremented(now[..i], was[..i])
    requires now[i] > 0 && now[i] - 1 == was[i] && now[i + 1..] == was[i + 1..] && Normalised(was)
    ensures Val(now) == Val(was) + 1 && Normalised(now)
  {
    hide Val, B;
    ValAt(now, i);
    ValAt(was, i);
    var hi, hi' := was[i] + BETA * Val(was[i + 1..]), now[i] + BETA * Val(now[i + 1..]);
    Split(hi', hi, 1, B(i));
    assert i + 1 < |was| ==> now[|was| - 1] == now[i + 1..][|was| - i - 2] == was[|was| - 1];
  }

  // done is was + 1 with a carry still to be added above.
  ghost predicate Incremented(done: seq<Limb>, was: seq<Limb>)
  {
    |done| == |was| && Val(done) + B(|was|) == Val(was) + 1
  }

  lemma IncrementStart()
    ensures Incremented([], [])
  {
  }

  lemma IncrementCarry(done: seq<Limb>, was: seq<Limb>)
    requires Incremented(done, was)
    ensures Incremented(done + [0], was + [BETA - 1])
  {
    ValSnoc(done, 0);
    ValSnoc(was, BETA - 1);
    BStep(|was|);
    Split(BETA, BETA - 1, 1, B(|was|));
  }

  lemma IncrementGrow(done: seq<Limb>, was: seq<Limb>)
    requires Incremented(done, was)
    ensures Val(done + [1]) == Val(was) + 1 && Normalised(done + [1])
  {
    ValSnoc(done, 1);
  }

  // The carry out of all limbs becomes a new limb.
  method AppendOne(r: array<Limb>, off: nat, len: nat, ghost q: seq<Limb>) returns (n: nat)
    requires off + len < r.Length && |q| == len && Incremented(r[off..off + len], q[..len])
    modifies r
    ensures n == len + 1 && Normalised(r[off..off + n]) && Val(r[off..off + n]) == Val(q) + 1
  {
    hide Val, B, Incremented, Normalised;
    ghost var done := r[off..off + len];
    r[off + len] := 1;
    assert q[..len] == q;
    assert r[off..off + len + 1] == done + [1];
    IncrementGrow(done, q);
    return len + 1;
  }

  // q := q + 1 for the limbs q = r[off..off+len], which may grow by one limb.
  method Increment(r: array<Limb>, off: nat, len: nat) returns (n: nat)
    requires off + len < r.Length && Normalised(r[off..off + len])
    modifies r
    ensures len <= n && off + n <= r.Length && Normalised(r[off..off + n])
    ensures Val(r[off..off + n]) == Val(old(r[off..off + len])) + 1
  {
    hide Val, B, Incremented, Normalised;
    ghost var q := r[off..off + len];
    var i := 0;
    IncrementStart();
    assert q[..0] == [] && r[off..off + 0] == [];
    while i < len
      invariant 0 <= i <= len
      invariant r[off + i..off + len] == q[i..]
      invariant Incremented(r[off..off + i], q[..i])
    {
      ghost var done := r[off..off + i];
      assert r[off + i] == q[i..][0] && r[off + i + 1..off + len] == q[i..][1..];
      r[off + i] := (r[off + i] + 1) % BETA;
      assert r[off..off + i] == done;
      if r[off + i] != 0 {
        ghost var now := r[off..off + len];
        assert now[..i] == done && now[i + 1..] == r[off + i + 1..off + len] == q[i + 1..];
        IncrementEnd(now, q, i);
        return len;
      }
      assert r[off..off + i + 1] == done + [0];
      assert q[..i + 1] == q[..i] + [q[i]];
      IncrementCarry(done, q[..i]);
      i := i + 1;
    }
    n := AppendOne(r, off, len, q);
  }

  // ------------------------------------------------------------------ normalising the divisor

  // A limb top times the power of two f just fits in a limb.
  ghost predicate TopBitSet(top: nat, f: nat)
  {
    HALF <= top * f && (top + 1) * f <= BETA
  }

  ghost predicate Scanned(msd: Limb, x: nat, p: nat)
  {
    x * p <= msd < (x + 1) * p
  }

  lemma ScanStep(msd: Limb, x: nat, p: nat, t: nat)
    requires Scanned(msd, x, p) && t > 0
    ensures Scanned(msd, x / t, p * t)
  {
    var y := x / t;
    DivMod(x, t);
    Distrib(y, 1, t);
    assert y * t <= x && x + 1 <= (y + 1) * t;
    MulMono(p, y * t, x);
    MulMono(p, x + 1, (y + 1) * t);
    assert p * (y * t) == y * (p * t) && p * ((y + 1) * t) == (y + 1) * (p * t);
  }

  lemma ScanEndArith(msd: nat, p: nat, w: nat)
    requires p * w == HALF && p <= msd < 2 * p
    ensures TopBitSet(msd, w)
  {
    MulMono(w, p, msd);
    MulMono(w, msd + 1, 2 * p);
    assert w * (2 * p) == 2 * (p * w);
  }

  lemma ScanEnd(msd: Limb, p: nat, s: nat)
    requires s <= 31 && Scanned(msd, 1, p) && p == Pow(2, 31 - s)
    ensures TopBitSet(msd, Pow(2, s))
  {
    PowAdd(2, 31 - s, s);
    HalfIsPower();
    ScanEndArith(msd, p, Pow(2, s));
  }

  lemma PositiveQuotient(x: nat, t: nat)
    requires 0 < t <= x
    ensures x / t > 0
  {
    DivMod(x, t);
  }

  // One step of the binary search for the highest bit of msd.
  method ScanBits(ghost msd: Limb, x: Limb, s: nat, w: nat, t: nat, ghost p: nat)
    returns (y: Limb, u: nat, ghost r: nat)
    requires t == Pow(2, w) && t > 0 && w <= s <= 31
    requires 0 < x < t * t && Scanned(msd, x, p) && p == Pow(2, 31 - s)
    ensures 0 < y < t && Scanned(msd, y, r) && s - w <= u <= s && r == Pow(2, 31 - u)
  {
    y, u, r := x, s, p;
    if x >= t {
      ScanStep(msd, x, p, t);
      PowAdd(2, 31 - s, w);
      DivBelow(x, t, t);
      DivMod(x, t);
      y, u, r := x / t, s - w, p * t;
      PositiveQuotient(x, t);
    }
  }

  // How far msd must be shifted left for its top bit to be set: 32 - integer_length(msd).
  method LeadingZeros(msd: Limb) returns (s: nat)
    requires msd > 0
    ensures s < 32 && TopBitSet(msd, Pow(2, s))
  {
    HalfIsPower();
    var x := msd;
    s := 31;
    ghost var p := 1;
    x, s, p := ScanBits(msd, x, s, 16, 0x10000, p);
    x, s, p := ScanBits(msd, x, s, 8, 0x100, p);
    x, s, p := ScanBits(msd, x, s, 4, 0x10, p);
    x, s, p := ScanBits(msd, x, s, 2, 0x4, p);
    x, s, p := ScanBits(msd, x, s, 1, 0x2, p);
    ScanEnd(msd, p, s);
  }

  lemma ShiftedArith(top: int, f: int, low: int, p: int, vb: int)
    requires vb == low + top * p && 0 <= low < p && 0 < f && 0 <= top
    ensures (top * f) * p <= f * vb
    ensures f * vb < ((top + 1) * f) * p
  {
    Split(top + 1, top, 1, p);
    MulMono(f, top * p, vb);
    MulStrict(f, vb, (top + 1) * p);
    assert f * (top * p) == (top * f) * p && f * ((top + 1) * p) == ((top + 1) * f) * p;
  }

  lemma ShiftedTop(v: int, low: nat, top: int, p: nat)
    requires v == low + top * p && low < p && HALF * p <= v
    ensures HALF <= top
  {
    Split(top + 1, top, 1, p);
    MulCancelLt(p, HALF, top + 1);
  }

  lemma ShiftedDivisorArith(vb: nat, low: nat, top: nat, p: nat, f: nat, v: nat, carry: nat, p1: nat)
    requires vb == low + top * p && low < p && 0 < f && v + carry * p1 == f * vb && p1 == BETA * p
    requires TopBitSet(top, f)
    ensures carry == 0 && HALF * p <= v
  {
    ShiftedArith(top, f, low, p, vb);
    MulMono(p, (top + 1) * f, BETA);
    MulMono(p, HALF, top * f);
    NoCarry(v, carry, p1, f * vb);
  }

  lemma TopLimbBound(s: seq<Limb>)
    requires s != [] && HALF * B(|s| - 1) <= Val(s)
    ensures HALF <= s[|s| - 1]
  {
    hide Val, B;
    var n := |s| - 1;
    ValInit(s);
    ShiftedTop(Val(s), Val(s[..n]), s[n], B(n));
  }

  // Shifting the divisor by s loses nothing, and sets its top bit.
  lemma ShiftedDivisor(b: seq<Limb>, s: nat, bs: seq<Limb>, carry: Limb)
    requires b != [] && s < 32 && TimesDone(bs, b, Pow(2, s), carry)
    requires TopBitSet(b[|b| - 1], Pow(2, s))
    ensures carry == 0 && bs[|b| - 1] >= HALF && Val(bs) == Pow(2, s) * Val(b)
  {
    hide Val, B, TopBitSet;
    var n := |b| - 1;
    ValInit(b);
    PowTwo31(s);
    BStep(n);
    ShiftedDivisorArith(Val(b), Val(b[..n]), b[n], B(n), Pow(2, s), Val(bs), carry, B(n + 1));
    TopLimbBound(bs);
  }

  lemma NoCarry(v: nat, carry: nat, p: nat, x: int)
    requires v + carry * p == x < p
    ensures carry == 0
  {
    if carry > 0 { MulMono(p, 1, carry); }
  }

  lemma ShiftedDividendArith(a: nat, pm: nat, f: nat, vb: nat, pk: nat, pn: nat)
    requires a < pm && 0 < f <= HALF && pm == pk * pn && HALF * pn <= vb
    ensures f * a < pk * vb
  {
    MulStrict(f, a, pm);
    MulMono(pm, f, HALF);
    MulMono(pk, HALF * pn, vb);
    assert pk * (HALF * pn) == HALF * (pk * pn);
  }

  // The dividend shifted like the divisor is below divisor * beta^(m-n+1).
  lemma ShiftedDividend(a: nat, m: nat, f: nat, b: seq<Limb>)
    requires a < B(m) && 0 < f <= HALF && b != [] && b[|b| - 1] >= HALF && m >= |b|
    ensures f * a < B(m - |b| + 1) * Val(b)
  {
    var n := |b| - 1;
    assert b == b[..n] + [b[n]];
    ValSnoc(b[..n], b[n]);
    MulMono(B(n), HALF, b[n]);
    PowAdd(BETA, m - n, n);
    ShiftedDividendArith(a, B(m), f, Val(b), B(m - n), B(n));
  }

  // ------------------------------------------------------------------------ the quotient's length

  lemma QuotientTopArith(a: int, q: int, v: int, r: int, f: int, x: int, y: int, z: int)
    requires a == q * v + r && 0 <= r < v && 0 < f && f * (x * y) <= a && 0 <= v <= f * y && 0 <= q && 0 < y
    ensures x <= q
  {
    Split(q + 1, q, 1, v);
    MulMono(q + 1, v, f * y);
    assert (q + 1) * (f * y) == (f * y) * (q + 1) && f * (x * y) == (f * y) * x;
    assert f * y > 0 by { MulStrict(f, 0, y); }
    MulCancelLt(f * y, x, q + 1);
  }

  // a with m limbs over b with n limbs has a quotient of m-n or m-n+1 limbs.
  lemma QuotientTop(a: seq<Limb>, b: seq<Limb>, f: nat, q: seq<Limb>, v: int, r: int)
    requires f > 0 && b != [] && |a| >= |b| && Normalised(a) && a != []
    requires Quotient(f * Val(a), Val(q), v, r) && v == f * Val(b) && |q| == |a| - |b| + 1
    ensures q[|q| - 1] == 0 ==> Normalised(q[..|q| - 1])
  {
    hide Val, B;
    if q[|q| - 1] == 0 && |a| > |b| {
      var x, y := B(|a| - |b| - 1), B(|b|);
      ValTop(a);
      BAdd(|a| - |b| - 1, |b|);
      MulMono(f, x * y, Val(a));
      ValBound(b);
      MulMono(f, Val(b), y);
      BStep(|b|);
      QuotientTopArith(f * Val(a), Val(q), v, r, f, x, y, 0);
      var t := q[..|q| - 1];
      ValDropTopZero(q);
      if t[|t| - 1] == 0 {
        ValDropTopZero(t);
        ValBound(t[..|t| - 1]);
      }
    }
  }

  // ------------------------------------------------------------------------------------ divide

  // A division of the shifted operands laid out in the room: remainder first, quotient after it.
  ghost predicate Divided(room: seq<Limb>, rLen: nat, qOff: nat, qLen: nat, a: int, b: seq<Limb>)
  {
    && rLen <= qOff && qOff + qLen < |room| && rLen <= |b|
    && Normalised(room[qOff..qOff + qLen])
    && Quotient(a, Val(room[qOff..qOff + qLen]), Val(b), Val(room[..rLen]))
  }

  // m < n: the quotient is zero and the remainder a copy of a.
  method DivideBelow(a: seq<Limb>, b: seq<Limb>, room: array<Limb>) returns (rLen: nat, qOff: nat, qLen: nat)
    requires |a| < |b| && Normalised(b) && room.Length >= |a| + 2
    modifies room
    ensures Divided(room[..], rLen, qOff, qLen, Val(a), b)
  {
    rLen, qOff, qLen := |a|, |a|, 0;
    for i := 0 to |a|
      invariant room[..i] == a[..i]
    {
      room[i] := a[i];
    }
    assert room[..][..rLen] == a && room[..][qOff..qOff + qLen] == [];
    ValBound(a);
    ValTop(b);
    PowMonoExp(BETA, |a|, |b| - 1);
  }

  // n = 1: the remainder is one limb, the quotient follows it.
  method DivideByLimb(a: seq<Limb>, b: seq<Limb>, room: array<Limb>) returns (rLen: nat, qOff: nat, qLen: nat)
    requires |b| == 1 && b[0] > 0 && a != [] && Normalised(a) && room.Length >= |a| + 2
    modifies room
    ensures Divided(room[..], rLen, qOff, qLen, Val(a), b)
  {
    var remainder := DivideShort(a, b[0], room, 1);
    ghost var q := room[1..1 + |a|];
    ValSingle(b[0]);
    assert b == [b[0]];
    QuotientTop(a, b, 1, q, Val(b), remainder);
    if remainder > 0 {
      room[0] := remainder;
      rLen := 1;
      ValSingle(remainder);
    } else {
      rLen := 0;
    }
    qOff, qLen := 1, |a|;
    assert room[1..1 + |a|] == q;
    if room[qOff + qLen - 1] == 0 {
      qLen := qLen - 1;
      ValDropTopZero(q);
    }
    assert room[..][..rLen] == if rLen == 1 then [remainder] else [];
    assert room[..][qOff..qOff + qLen] == q[..qLen];
    assert q[..|a|] == q;
  }

  // r := a shifted left by s bits, one limb longer than a.
  method ShiftDividend(a: seq<Limb>, s: nat, room: array<Limb>)
    requires s < 32 && room.Length >= |a| + 1
    modifies room
    ensures Val(room[..|a| + 1]) == Pow(2, s) * Val(a)
  {
    var m := |a|;
    if s == 0 {
      for i := 0 to m
        invariant room[..i] == a[..i]
      {
        room[i] := a[i];
      }
      room[m] := 0;
      assert room[..m + 1] == a + [0];
      ValSnoc(a, 0);
    } else {
      var carry := ShiftLeft(a, s, room, 0);
      ghost var low := room[0..m];
      room[m] := carry;
      assert room[..m + 1] == low + [carry];
      ValSnoc(low, carry);
    }
  }

  // The divisor shifted until its top bit is set, with the factor f that this is; none when memory is refused.
  method ShiftDivisor(al: Allocator, b: seq<Limb>) returns (s: nat, bs: seq<Limb>, ghost f: nat)
    requires !al.refused && b != [] && b[|b| - 1] > 0
    modifies al
    ensures s < 32 && f == Pow(2, s) && 0 < f <= HALF
    ensures !al.refused ==> |bs| == |b| && bs[|b| - 1] >= HALF && Val(bs) == f * Val(b)
  {
    hide Val, B, TimesDone;
    var n := |b|;
    s := LeadingZeros(b[n - 1]);
    f := Pow(2, s);
    PowTwo31(s);
    bs := b;
    if s > 0 {
      var tmp := al.NewLimbs(n);
      if tmp == null { return; }
      var carry := ShiftLeft(b, s, tmp, 0);
      bs := tmp[0..n];
      ShiftedDivisor(b, s, bs, carry);
    } else {
      assert f == 1;
    }
  }

  // Without their high zero limbs, quotient and remainder are laid out as promised.
  lemma DividedLayout(room: seq<Limb>, rLen: nat, qLen: nat, qMax: nat, a: int, b: seq<Limb>)
    requires rLen <= |b| && qLen <= qMax && |b| + qMax < |room|
    requires Quotient(a, Val(room[|b|..|b| + qMax]), Val(b), Val(room[..|b|]))
    requires Val(room[..rLen]) == Val(room[..|b|])
    requires Normalised(room[|b|..|b| + qLen]) && Val(room[|b|..|b| + qLen]) == Val(room[|b|..|b| + qMax])
    ensures Divided(room, rLen, |b|, qLen, a, b)
  {
  }

  // Drops the high zero limb of a quotient, if there is one.
  method DropZeroLimb(room: array<Limb>, qOff: nat, len: nat) returns (qLen: nat)
    requires 0 < len && qOff + len <= room.Length
    requires room[qOff + len - 1] == 0 ==> Normalised(room[qOff..qOff + len - 1])
    ensures qLen <= len && Normalised(room[qOff..qOff + qLen])
    ensures Val(room[qOff..qOff + qLen]) == Val(room[qOff..qOff + len])
  {
    hide Val;
    ghost var q := room[qOff..qOff + len];
    qLen := len;
    if room[qOff + len - 1] == 0 {
      qLen := len - 1;
      ValDropTopZero(q);
      assert room[qOff..qOff + qLen] == q[..qLen];
    }
  }

  // n > 1: both operands are shifted until the divisor's top bit is set, then divided digit by digit.
  // The shifted divisor bs and the common factor f are returned with the layout.
  method DivideByMany(al: Allocator, a: seq<Limb>, b: seq<Limb>, room: array<Limb>)
    returns (bs: seq<Limb>, rLen: nat, qOff: nat, qLen: nat, ghost f: nat)
    requires !al.refused && |b| >= 2 && |a| >= |b| && Normalised(a) && Normalised(b) && room.Length >= |a| + 2
    modifies al, room
    ensures !al.refused ==> f > 0 && Val(bs) == f * Val(b) && Divided(room[..], rLen, qOff, qLen, f * Val(a), bs)
  {
    hide Val, B, Quotient, Dividing, Divided;
    var m, n := |a|, |b|;
    var s;
    rLen, qOff, qLen := n, n, m - n + 1;
    s, bs, f := ShiftDivisor(al, b);
    if al.refused { return; }
    ShiftDividend(a, s, room);
    ValBound(a);
    ShiftedDividend(Val(a), m, f, bs);
    DividingStart(room[..m + 1], bs, m - n + 1);
    DivideLoop(room, m, bs);
    ghost var q := room[n..m + 1];
    QuotientTop(a, b, f, q, Val(bs), Val(room[..n]));
    assert room[n..n + qLen - 1] == q[..qLen - 1];
    qLen := DropZeroLimb(room, qOff, qLen);
    rLen := Normalise(room, 0, n);
    ghost var all := room[..];
    assert all[..n] == room[..n] == room[0..n] && all[..rLen] == room[0..rLen];
    assert all[n..n + (m - n + 1)] == q && all[n..n + qLen] == room[n..n + qLen];
    DividedLayout(all, rLen, qLen, m - n + 1, f * Val(a), bs);
  }

  lemma OddLimb(q: seq<Limb>)
    requires q != []
    ensures Val(q) % 2 == q[0] % 2
  {
    assert Val(q) == q[0] + BETA * Val(q[1..]);
  }

  // q := q + 1 if the remainder is more than half the divisor, or half of it and q is odd.
  method RoundQuotientUp(room: array<Limb>, rLen: nat, qOff: nat, qLen: nat, b: seq<Limb>, ghost a: nat)
    returns (len: nat)
    requires Divided(room[..], rLen, qOff, qLen, a, b)
    modifies room
    ensures qOff + len <= room.Length && Normalised(room[qOff..qOff + len])
    ensures RoundsTo(a, Val(b), Val(room[qOff..qOff + len]))
  {
    hide Val, B;
    ghost var q := room[qOff..qOff + qLen];
    assert room[..][qOff..qOff + qLen] == q && room[..][..rLen] == room[..rLen];
    RoundQuotient(a, Val(b), Val(q), Val(room[..rLen]));
    var sign := CompareTwice(room[..rLen], b);
    len := qLen;
    ValEmpty();
    if qLen > 0 { OddLimb(q); }
    if sign > 0 || (sign == 0 && qLen > 0 && room[qOff] % 2 == 1) {
      len := Increment(room, qOff, qLen);
    }
  }

  lemma DropZeros(s: seq<Limb>, n: nat)
    requires 0 < n <= |s| && s[n - 1] == 0
    ensures Val(s[..n - 1]) == Val(s[..n])
  {
    ValDropTopZero(s[..n]);
    assert s[..n][..n - 1] == s[..n - 1];
  }

  // Drops the high zero limbs of a sequence that is only read.
  method NormalisedPrefix(s: seq<Limb>) returns (n: nat)
    ensures n <= |s| && Normalised(s[..n]) && Val(s[..n]) == Val(s)
  {
    n := |s|;
    assert s[..n] == s;
    while n > 0 && s[n - 1] == 0
      invariant n <= |s| && Val(s[..n]) == Val(s)
    {
      DropZeros(s, n);
      n := n - 1;
    }
  }

  lemma NonZero(b: seq<Limb>)
    requires Val(b) > 0 && Normalised(b)
    ensures b != [] && b[|b| - 1] > 0
  {
  }

  // a / b rounded to nearest, ties to even; None when memory is refused. Remainder, quotient and the
  // limb a rounding may add all live in one room of |a0| + 2 limbs.
  method Divide(al: Allocator, a0: seq<Limb>, b0: seq<Limb>) returns (q: Option<Mpn>)
    requires !al.refused && Val(b0) > 0
    modifies al
    ensures q.None? <==> al.refused
    ensures q.Some? ==> q.value.Valid() && fresh(q.value.room) && q.value.room.Length == |a0| + 2
    ensures q.Some? ==> Normalised(q.value.Limbs()) && RoundsTo(Val(a0), Val(b0), Val(q.value.Limbs()))
  {
    hide Val, B, Divided, RoundsTo, Normalised;
    var room := al.NewLimbs(|a0| + 2);
    if room == null { return None; }
    var aLen := NormalisedPrefix(a0);
    var bLen := NormalisedPrefix(b0);
    var a, b := a0[..aLen], b0[..bLen];
    NonZero(b);
    var bs, rLen, qOff, qLen := b, 0, 0, 0;
    ghost var f := 1;
    if aLen < bLen {
      rLen, qOff, qLen := DivideBelow(a, b, room);
    } else if bLen == 1 {
      rLen, qOff, qLen := DivideByLimb(a, b, room);
    } else {
      bs, rLen, qOff, qLen, f := DivideByMany(al, a, b, room);
      if al.refused { return None; }
    }
    var len := RoundQuotientUp(room, rLen, qOff, qLen, bs, f * Val(a));
    RoundScale(Val(a), Val(b), f, Val(room[qOff..qOff + len]));
    return Some(Mpn(room, qOff, len));
  }
}
