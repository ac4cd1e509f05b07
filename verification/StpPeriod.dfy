/** The powers of x modulo the divisor, which repeat after exactly 32767 steps. */
module StpPeriod {
  import opened Bytes
  import opened StpCrc
  import opened StpDetection

  /** A coefficient, added modulo 2. */
  datatype Bit = O | I

  function Sum(a: Bit, b: Bit): Bit {
    if a.I? != b.I? then I else O
  }

  /** A remainder modulo the divisor, by its coefficients. */
  datatype Poly = Poly(
    c0: Bit, c1: Bit, c2: Bit, c3: Bit, c4: Bit, c5: Bit, c6: Bit, c7: Bit,
    c8: Bit, c9: Bit, c10: Bit, c11: Bit, c12: Bit, c13: Bit, c14: Bit, c15: Bit)

  const ONE: Poly := Poly(I, O, O, O, O, O, O, O, O, O, O, O, O, O, O, O)

  function TimesX(p: Poly): Poly {
    Poly(p.c15, p.c0, p.c1, p.c2, p.c3, Sum(p.c4, p.c15), p.c5, p.c6, p.c7, p.c8, p.c9, p.c10,
         Sum(p.c11, p.c15), p.c12, p.c13, p.c14)
  }

  // The square: coefficient i becomes that of x^(2i), reduced by the divisor.
  function Square(p: Poly): Poly {
    Poly(Sum(Sum(Sum(Sum(p.c0, p.c8), p.c10), p.c12), p.c14),
         p.c14,
         Sum(Sum(Sum(Sum(p.c1, p.c9), p.c11), p.c13), p.c15),
         p.c15,
         Sum(Sum(Sum(p.c2, p.c10), p.c12), p.c14),
         Sum(Sum(Sum(p.c8, p.c10), p.c12), p.c14),
         Sum(Sum(Sum(Sum(p.c3, p.c11), p.c13), p.c14), p.c15),
         Sum(Sum(Sum(p.c9, p.c11), p.c13), p.c15),
         Sum(Sum(Sum(p.c4, p.c12), p.c14), p.c15),
         Sum(Sum(p.c10, p.c12), p.c14),
         Sum(Sum(p.c5, p.c13), p.c15),
         Sum(Sum(p.c11, p.c13), p.c15),
         Sum(Sum(Sum(p.c6, p.c8), p.c10), p.c12),
         p.c12,
         Sum(Sum(Sum(p.c7, p.c9), p.c11), p.c13),
         p.c13)
  }

  ghost function Power(n: nat): Poly {
    if n == 0 then ONE else TimesX(Power(n - 1))
  }

  // A remainder is its coefficients.
  lemma SameCoefficients(l: Poly, r: Poly)
    requires l.c0.I? == r.c0.I? && l.c1.I? == r.c1.I? && l.c2.I? == r.c2.I? && l.c3.I? == r.c3.I?
    requires l.c4.I? == r.c4.I? && l.c5.I? == r.c5.I? && l.c6.I? == r.c6.I? && l.c7.I? == r.c7.I?
    requires l.c8.I? == r.c8.I? && l.c9.I? == r.c9.I? && l.c10.I? == r.c10.I? && l.c11.I? == r.c11.I?
    requires l.c12.I? == r.c12.I? && l.c13.I? == r.c13.I? && l.c14.I? == r.c14.I? && l.c15.I? == r.c15.I?
    ensures l == r
  {
  }

  // Squaring after multiplying by x, two coefficients at a time.
  lemma Commutes0(p: Poly)
    ensures var l, r := Square(TimesX(p)), TimesX(TimesX(Square(p)));
            l.c0.I? == r.c0.I? && l.c1.I? == r.c1.I?
  {
  }

  lemma Commutes2(p: Poly)
    ensures var l, r := Square(TimesX(p)), TimesX(TimesX(Square(p)));
            l.c2.I? == r.c2.I? && l.c3.I? == r.c3.I?
  {
  }

  lemma Commutes4(p: Poly)
    ensures var l, r := Square(TimesX(p)), TimesX(TimesX(Square(p)));
            l.c4.I? == r.c4.I? && l.c5.I? == r.c5.I?
  {
  }

  lemma Commutes6(p: Poly)
    ensures var l, r := Square(TimesX(p)), TimesX(TimesX(Square(p)));
            l.c6.I? == r.c6.I? && l.c7.I? == r.c7.I?
  {
  }

  lemma Commutes8(p: Poly)
    ensures var l, r := Square(TimesX(p)), TimesX(TimesX(Square(p)));
            l.c8.I? == r.c8.I? && l.c9.I? == r.c9.I?
  {
  }

  lemma Commutes10(p: Poly)
    ensures var l, r := Square(TimesX(p)), TimesX(TimesX(Square(p)));
            l.c10.I? == r.c10.I? && l.c11.I? == r.c11.I?
  {
  }

  lemma Commutes12(p: Poly)
    ensures var l, r := Square(TimesX(p)), TimesX(TimesX(Square(p)));
            l.c12.I? == r.c12.I? && l.c13.I? == r.c13.I?
  {
  }

  lemma Commutes14(p: Poly)
    ensures var l, r := Square(TimesX(p)), TimesX(TimesX(Square(p)));
            l.c14.I? == r.c14.I? && l.c15.I? == r.c15.I?
  {
  }

  lemma SquareTimesX(p: Poly)
    ensures Square(TimesX(p)) == TimesX(TimesX(Square(p)))
  {
    Commutes0(p);
    Commutes2(p);
    Commutes4(p);
    Commutes6(p);
    Commutes8(p);
    Commutes10(p);
    Commutes12(p);
    Commutes14(p);
    SameCoefficients(Square(TimesX(p)), TimesX(TimesX(Square(p))));
  }

  /** Squaring doubles the exponent. */
  lemma {:induction false} SquarePower(n: nat)
    ensures Square(Power(n)) == Power(2 * n)
  {
    if n > 0 {
      SquarePower(n - 1);
      SquareStep(Power(n - 1), Power(2 * n - 2));
      TwoSteps(2 * n - 2);
    }
  }

  lemma SquareStep(p: Poly, s: Poly)
    requires Square(p) == s
    ensures Square(TimesX(p)) == TimesX(TimesX(s))
  {
    SquareTimesX(p);
  }

  lemma TwoSteps(n: nat)
    ensures Power(n + 2) == TimesX(TimesX(Power(n)))
  {
    assert Power(n + 2) == TimesX(Power(n + 1));
  }

  // One more binary digit of the exponent.
  lemma Climb(e: nat, p: Poly, odd: bool, q: Poly)
    requires Power(e) == p && q == if odd then TimesX(Square(p)) else Square(p)
    ensures Power(2 * e + if odd then 1 else 0) == q
  {
    SquarePower(e);
  }

  lemma Power32767Half()
    ensures Power(255) == Poly(O, O, I, O, O, O, O, O, I, I, I, I, O, O, I, I)
  {
    var p1 := Poly(O, I, O, O, O, O, O, O, O, O, O, O, O, O, O, O);
    var p3 := Poly(O, O, O, I, O, O, O, O, O, O, O, O, O, O, O, O);
    var p7 := Poly(O, O, O, O, O, O, O, I, O, O, O, O, O, O, O, O);
    var p15 := Poly(O, O, O, O, O, O, O, O, O, O, O, O, O, O, O, I);
    var p31 := Poly(O, O, O, I, I, O, O, I, I, I, O, I, I, O, O, O);
    var p63 := Poly(O, O, O, O, O, I, O, O, O, O, I, O, I, O, I, I);
    var p127 := Poly(O, I, I, I, I, I, I, O, I, I, I, O, I, O, I, O);
    var p255 := Poly(O, O, I, O, O, O, O, O, I, I, I, I, O, O, I, I);
    assert Power(0) == ONE && Power(1) == p1;
    Climb(1, p1, true, p3);
    Climb(3, p3, true, p7);
    Climb(7, p7, true, p15);
    Climb(15, p15, true, p31);
    Climb(31, p31, true, p63);
    Climb(63, p63, true, p127);
    Climb(127, p127, true, p255);
  }

  lemma Power32767()
    ensures Power(32767) == Poly(I, O, O, O, O, O, O, O, O, O, O, O, O, O, O, O)
  {
    var p255 := Poly(O, O, I, O, O, O, O, O, I, I, I, I, O, O, I, I);
    var p511 := Poly(O, I, I, I, I, I, I, I, I, O, O, I, O, O, O, O);
    var p1023 := Poly(O, I, O, O, O, I, I, O, I, I, O, I, I, O, O, O);
    var p2047 := Poly(O, O, O, I, O, I, O, I, O, I, I, I, I, I, I, O);
    var p4095 := Poly(I, I, I, I, O, O, I, O, I, O, I, O, I, O, I, O);
    var p8191 := Poly(O, I, I, I, O, O, O, O, O, O, I, O, O, O, I, O);
    var p16383 := Poly(O, O, I, I, O, I, O, O, O, I, O, O, O, I, O, O);
    var p32767 := Poly(I, O, O, O, O, O, O, O, O, O, O, O, O, O, O, O);
    Power32767Half();
    Climb(255, p255, true, p511);
    Climb(511, p511, true, p1023);
    Climb(1023, p1023, true, p2047);
    Climb(2047, p2047, true, p4095);
    Climb(4095, p4095, true, p8191);
    Climb(8191, p8191, true, p16383);
    Climb(16383, p16383, true, p32767);
  }

  lemma Power4681()
    ensures Power(4681) == Poly(O, I, O, O, O, O, I, O, O, O, I, I, O, I, O, O)
  {
    var p1 := Poly(O, I, O, O, O, O, O, O, O, O, O, O, O, O, O, O);
    var p2 := Poly(O, O, I, O, O, O, O, O, O, O, O, O, O, O, O, O);
    var p4 := Poly(O, O, O, O, I, O, O, O, O, O, O, O, O, O, O, O);
    var p9 := Poly(O, O, O, O, O, O, O, O, O, I, O, O, O, O, O, O);
    var p18 := Poly(O, O, I, O, O, O, O, I, O, O, O, O, O, O, I, O);
    var p36 := Poly(I, I, O, O, O, I, I, O, I, I, O, O, O, O, I, O);
    var p73 := Poly(O, I, I, O, O, I, O, I, I, I, I, I, O, O, O, I);
    var p146 := Poly(O, O, O, I, O, O, O, I, I, I, O, O, O, O, I, O);
    var p292 := Poly(O, I, I, O, I, O, O, I, I, I, O, O, I, O, O, O);
    var p585 := Poly(O, O, O, O, O, O, O, O, I, O, I, O, O, O, I, O);
    var p1170 := Poly(I, I, O, O, O, I, I, O, I, O, O, O, O, O, O, O);
    var p2340 := Poly(O, O, I, O, O, I, O, O, O, O, I, O, O, O, O, O);
    var p4681 := Poly(O, I, O, O, O, O, I, O, O, O, I, I, O, I, O, O);
    assert Power(0) == ONE && Power(1) == p1;
    Climb(1, p1, false, p2);
    Climb(2, p2, false, p4);
    Climb(4, p4, true, p9);
    Climb(9, p9, false, p18);
    Climb(18, p18, false, p36);
    Climb(36, p36, true, p73);
    Climb(73, p73, false, p146);
    Climb(146, p146, false, p292);
    Climb(292, p292, true, p585);
    Climb(585, p585, false, p1170);
    Climb(1170, p1170, false, p2340);
    Climb(2340, p2340, true, p4681);
  }

  lemma Power1057()
    ensures Power(1057) == Poly(I, I, I, I, O, I, O, I, O, I, O, O, I, I, I, I)
  {
    var p1 := Poly(O, I, O, O, O, O, O, O, O, O, O, O, O, O, O, O);
    var p2 := Poly(O, O, I, O, O, O, O, O, O, O, O, O, O, O, O, O);
    var p4 := Poly(O, O, O, O, I, O, O, O, O, O, O, O, O, O, O, O);
    var p8 := Poly(O, O, O, O, O, O, O, O, I, O, O, O, O, O, O, O);
    var p16 := Poly(I, O, O, O, O, I, O, O, O, O, O, O, I, O, O, O);
    var p33 := Poly(O, O, O, O, O, I, I, O, O, I, I, I, O, I, I, O);
    var p66 := Poly(O, I, I, O, O, O, I, I, I, O, O, O, O, O, I, I);
    var p132 := Poly(O, I, O, I, O, O, O, I, O, I, I, I, O, O, I, O);
    var p264 := Poly(O, I, I, O, O, O, I, O, I, O, O, I, I, O, I, O);
    var p528 := Poly(I, I, O, O, I, I, O, I, O, O, O, I, I, I, I, O);
    var p1057 := Poly(I, I, I, I, O, I, O, I, O, I, O, O, I, I, I, I);
    assert Power(0) == ONE && Power(1) == p1;
    Climb(1, p1, false, p2);
    Climb(2, p2, false, p4);
    Climb(4, p4, false, p8);
    Climb(8, p8, false, p16);
    Climb(16, p16, true, p33);
    Climb(33, p33, false, p66);
    Climb(66, p66, false, p132);
    Climb(132, p132, false, p264);
    Climb(264, p264, false, p528);
    Climb(528, p528, true, p1057);
  }

  lemma Power217()
    ensures Power(217) == Poly(I, I, O, O, O, I, I, I, O, O, O, I, O, O, I, O)
  {
    var p1 := Poly(O, I, O, O, O, O, O, O, O, O, O, O, O, O, O, O);
    var p3 := Poly(O, O, O, I, O, O, O, O, O, O, O, O, O, O, O, O);
    var p6 := Poly(O, O, O, O, O, O, I, O, O, O, O, O, O, O, O, O);
    var p13 := Poly(O, O, O, O, O, O, O, O, O, O, O, O, O, I, O, O);
    var p27 := Poly(I, O, O, I, O, I, O, I, I, O, O, I, O, O, O, I);
    var p54 := Poly(O, O, O, I, O, I, I, O, I, O, O, O, I, O, O, O);
    var p108 := Poly(O, O, O, O, I, O, I, O, I, I, I, O, I, I, O, O);
    var p217 := Poly(I, I, O, O, O, I, I, I, O, O, O, I, O, O, I, O);
    assert Power(0) == ONE && Power(1) == p1;
    Climb(1, p1, true, p3);
    Climb(3, p3, false, p6);
    Climb(6, p6, true, p13);
    Climb(13, p13, true, p27);
    Climb(27, p27, false, p54);
    Climb(54, p54, false, p108);
    Climb(108, p108, true, p217);
  }

  // ---- Periods ----

  lemma TimesXInjective(p: Poly, q: Poly)
    requires TimesX(p) == TimesX(q)
    ensures p == q
  {
  }

  lemma {:induction false} PeriodAdds(d: nat, n: nat)
    requires Power(d) == ONE
    ensures Power(d + n) == Power(n)
    decreases n
  {
    if n > 0 {
      PeriodAdds(d, n - 1);
    }
  }

  lemma {:induction false} PeriodCancels(d: nat, n: nat)
    requires Power(d + n) == Power(n)
    ensures Power(d) == ONE
    decreases n
  {
    if n > 0 {
      TimesXInjective(Power(d + n - 1), Power(n - 1));
      PeriodCancels(d, n - 1);
    }
  }

  lemma {:induction false} PeriodMultiple(d: nat, k: nat)
    requires Power(d) == ONE
    ensures Power(d * k) == ONE
    decreases k
  {
    if k > 0 {
      PeriodMultiple(d, k - 1);
      PeriodAdds(d, d * (k - 1));
      assert d * k == d + d * (k - 1);
    }
  }

  /** A common divisor of two periods that is itself a period. */
  lemma {:induction false} CommonPeriod(a: nat, b: nat) returns (g: nat, m: nat, n: nat)
    requires a > 0 && Power(a) == ONE && Power(b) == ONE
    ensures g > 0 && Power(g) == ONE && a == g * m && b == g * n
    decreases b
  {
    if b == 0 {
      g, m, n := a, 1, 0;
    } else {
      var q, r := a / b, a % b;
      PeriodMultiple(b, q);
      assert a == b * q + r;
      PeriodAdds(b * q, r);
      g, m, n := CommonPeriod(b, r);
      ProductSum(g, m, n, q);
      m, n := m * q + n, m;
    }
  }

  lemma ProductSum(g: nat, m: nat, n: nat, q: nat)
    ensures g * m * q + g * n == g * (m * q + n)
  {
  }

  // ---- The divisors of 32767 = 7 * 31 * 151 ----

  ghost predicate OurPrime(p: nat) {
    p == 7 || p == 31 || p == 151
  }

  lemma NotProduct(p: nat, x: nat, y: nat)
    requires OurPrime(p) && 2 <= x <= 12 && y >= 2
    ensures x * y != p
  {
    assert x == 2 || x == 3 || x == 4 || x == 5 || x == 6 || x == 7 || x == 8 || x == 9 || x == 10 || x == 11 || x == 12;
  }

  lemma BothLarge(x: nat, y: nat)
    requires x >= 13 && y >= 13
    ensures x * y >= 169
  {
  }

  lemma NoDivisor(p: nat, x: nat)
    requires OurPrime(p) && 2 <= x < p
    ensures p % x != 0
  {
    var y := p / x;
    assert p == x * y + p % x;
    if y < 2 {
      assert y == 1;
    } else if x <= 12 {
      NotProduct(p, x, y);
    } else if y <= 12 {
      NotProduct(p, y, x);
      assert x * y == y * x;
    } else {
      BothLarge(x, y);
    }
  }

  // A prime that divides a * b, with a smaller, divides b.
  lemma {:induction false} DividesOther(p: nat, a: nat, b: int, c: int) returns (e: int)
    requires OurPrime(p) && 0 < a < p && a * b == p * c
    ensures b == p * e
    decreases a
  {
    if a == 1 {
      e := c;
    } else {
      var q, r := p / a, p % a;
      NoDivisor(p, a);
      Remainder(p, a, b, c, q, r);
      e := DividesOther(p, r, b, b - q * c);
    }
  }

  lemma Remainder(p: nat, a: nat, b: int, c: int, q: int, r: int)
    requires a * b == p * c && p == a * q + r
    ensures r * b == p * (b - q * c)
  {
    assert r * b == p * b - q * (a * b);
  }

  lemma Reduced(p: nat, a: nat, b: nat, c: nat, q: int, r: int)
    requires a * b == p * c && a == p * q + r
    ensures r * b == p * (c - q * b)
  {
    assert r * b == a * b - p * q * b;
  }

  lemma DividesOne(p: nat, a: nat, b: nat, c: nat) returns (e: int)
    requires OurPrime(p) && a * b == p * c
    ensures a == p * e || b == p * e
  {
    var q, r := a / p, a % p;
    if r == 0 {
      e := q;
    } else {
      Reduced(p, a, b, c, q, r);
      e := DividesOther(p, r, b, c - q * b);
    }
  }

  // A proper divisor g of 32767 divides one of 4681, 1057 and 217.
  lemma ProperDivisor(g: nat, m: nat) returns (k: nat)
    requires g * m == 32767 && m > 1
    ensures g * k == 4681 || g * k == 1057 || g * k == 217
  {
    var e := DividesOne(7, g, m, 4681);
    if m == 7 * e {
      Cancels(7, g, e, 4681);
      k := e;
    } else {
      Cancels(7, m, e, 4681);
      var f := DividesOne(31, e, m, 151);
      if m == 31 * f {
        assert g * f == 1057 by { Cancels(31, g, f, 1057); }
        k := f;
      } else {
        Cancels(31, m, f, 151);
        var h := DividesOne(151, f, m, 1);
        if m == 151 * h {
          Cancels(151, g, h, 217);
          k := h;
        } else {
          Cancels(151, m, h, 1);
          assert false;
        }
      }
    }
  }

  // p * a * b == p * n
  lemma Cancels(p: nat, a: nat, b: int, n: int)
    requires p > 0 && a * (p * b) == p * n
    ensures a * b == n
  {
    assert p * (a * b) == p * n;
  }

  /** The powers of x return to 1 exactly at the multiples of 32767. */
  lemma PeriodExactly(d: nat)
    ensures Power(d) == ONE <==> d % 32767 == 0
  {
    PeriodDivides(d, 32767);
  }

  lemma PeriodDivides(d: nat, period: nat)
    requires period == 32767
    ensures Power(d) == ONE <==> d % period == 0
  {
    IsPeriod(period);
    if d % period == 0 {
      PeriodMultiple(period, d / period);
    }
    if Power(d) == ONE {
      var g, m, n := CommonPeriod(period, d);
      if m > 1 {
        var k := ProperDivisor(g, m);
        PeriodMultiple(g, k);
        NoSmallerPeriod(g * k);
        assert false;
      }
      WholePeriod(d, g, m, n);
    }
  }

  lemma IsPeriod(e: nat)
    requires e == 32767
    ensures Power(e) == ONE
  {
    Power32767();
  }

  lemma NoSmallerPeriod(e: nat)
    requires e == 4681 || e == 1057 || e == 217
    ensures Power(e) != ONE
  {
    if e == 4681 {
      Power4681();
    } else if e == 1057 {
      Power1057();
    } else {
      Power217();
    }
  }

  lemma WholePeriod(d: nat, g: nat, m: nat, n: nat)
    requires g * m == 32767 && m <= 1 && d == g * n
    ensures d % 32767 == 0
  {
    assert m == 1 && g == 32767;
  }

  // ---- Two flipped bits ----

  ghost function AsBit(b: bool): Bit {
    if b then I else O
  }

  ghost function Coefficients(w: Word): Poly {
    Poly(AsBit(w[0]), AsBit(w[1]), AsBit(w[2]), AsBit(w[3]), AsBit(w[4]), AsBit(w[5]), AsBit(w[6]), AsBit(w[7]),
         AsBit(w[8]), AsBit(w[9]), AsBit(w[10]), AsBit(w[11]), AsBit(w[12]), AsBit(w[13]), AsBit(w[14]), AsBit(w[15]))
  }

  /** A zero message bit multiplies the register by x. */
  lemma ZeroBitIsTimesX(w: Word)
    ensures Coefficients(DivideBit(w, false)) == TimesX(Coefficients(w))
  {
    forall i | 0 <= i < 16
      ensures DivideBit(w, false)[i] == ((i >= 1 && w[i - 1]) != (w[15] && (i == 0 || i == 5 || i == 12)))
    {
      DivideBitBits(w, false, i);
    }
  }

  lemma {:induction false} ZerosArePowers(w: Word, e: nat, n: nat)
    requires Coefficients(w) == Power(e)
    ensures Coefficients(Divide(w, Zeros(n))) == Power(e + n)
    decreases n
  {
    if n > 0 {
      ZeroBitIsTimesX(w);
      assert Zeros(n)[1..] == Zeros(n - 1);
      ZerosArePowers(DivideBit(w, false), e + 1, n - 1);
    }
  }

  /** Exactly the bits i and j are flipped. */
  ghost predicate TwoBits(error: seq<bool>, i: nat, j: nat) {
    i < j < |error| && forall k :: 0 <= k < |error| ==> error[k] == (k == i || k == j)
  }

  lemma TwoBitsRemain(error: seq<bool>, i: nat, j: nat)
    requires TwoBits(error, i, j)
    ensures Divide(ZERO_WORD, error) == ZERO_WORD <==> (j - i) % 32767 == 0
  {
    var d, tail := j - i, |error| - j - 1;
    var second := [true] + Zeros(tail);
    var first := [true] + (Zeros(d - 1) + second);
    assert error == Zeros(i) + first;
    DivideConcat(ZERO_WORD, Zeros(i), first);
    ZerosKeepTheVerdict(ZERO_WORD, i);
    FirstBit(Zeros(d - 1) + second);
    var r := Divide(POLYNOMIAL, Zeros(d - 1));
    DivideConcat(POLYNOMIAL, Zeros(d - 1), second);
    DivideConcat(r, [true], Zeros(tail));
    ZerosKeepTheVerdict(Divide(r, [true]), tail);
    SecondBit(r, d);
  }

  lemma FirstBit(rest: seq<bool>)
    ensures Divide(ZERO_WORD, [true] + rest) == Divide(POLYNOMIAL, rest)
  {
    var r := DivideBit(ZERO_WORD, true);
    forall i | 0 <= i < 16 ensures r[i] == POLYNOMIAL[i] {
      DivideBitBits(ZERO_WORD, true, i);
    }
    assert r == POLYNOMIAL;
    assert ([true] + rest)[1..] == rest;
  }

  // The second bit clears the register exactly when it holds x^15 alone.
  lemma SecondBit(r: Word, d: nat)
    requires d >= 1 && r == Divide(POLYNOMIAL, Zeros(d - 1))
    ensures Divide(r, [true]) == ZERO_WORD <==> d % 32767 == 0
  {
    ClearsExactly(r, [true]);
    OnlyTop(r, Coefficients(r));
    BackAtX15(15, r, d);
  }

  lemma BackAtX15(e: nat, r: Word, d: nat)
    requires e == 15 && d >= 1 && r == Divide(POLYNOMIAL, Zeros(d - 1))
    ensures IsX15(Coefficients(r)) <==> d % 32767 == 0
  {
    SmallPowers(e);
    ZerosArePowers(POLYNOMIAL, e + 1, d - 1);
    assert e + 1 + (d - 1) == e + d;
    ReturnsExactly(e, d);
    OnlyX15(Coefficients(r), Power(e));
  }

  lemma OnlyX15(p: Poly, q: Poly)
    requires IsX15(q)
    ensures p == q <==> IsX15(p)
  {
  }

  ghost predicate IsX15(p: Poly) {
    p == Poly(O, O, O, O, O, O, O, O, O, O, O, O, O, O, O, I)
  }

  lemma OnlyTop(r: Word, p: Poly)
    requires p == Coefficients(r)
    ensures TopIs(r, [true]) <==> IsX15(p)
  {
    if IsX15(p) {
      forall i | 0 <= i < 16 ensures r[i] == (15 - i < 1 && [true][15 - i]) {
      }
    }
  }

  lemma ReturnsExactly(e: nat, d: nat)
    ensures Power(e + d) == Power(e) <==> d % 32767 == 0
  {
    PeriodExactly(d);
    if Power(d) == ONE {
      PeriodAdds(d, e);
      assert d + e == e + d;
    }
    if Power(e + d) == Power(e) {
      assert d + e == e + d;
      PeriodCancels(d, e);
    }
  }

  lemma SmallPowers(e: nat)
    requires e == 15
    ensures IsX15(Power(e)) && Power(e + 1) == Coefficients(POLYNOMIAL)
  {
    Power15();
    assert Power(e + 1) == TimesX(Power(e));
    DivisorCoefficients(POLYNOMIAL);
  }

  lemma DivisorCoefficients(p: Word)
    requires forall i :: 0 <= i < 16 ==> p[i] == (i == 0 || i == 5 || i == 12)
    ensures Coefficients(p) == Poly(I, O, O, O, O, I, O, O, O, O, O, O, I, O, O, O)
  {
  }

  lemma Power15()
    ensures Power(15) == Poly(O, O, O, O, O, O, O, O, O, O, O, O, O, O, O, I)
  {
    var p1 := Poly(O, I, O, O, O, O, O, O, O, O, O, O, O, O, O, O);
    var p3 := Poly(O, O, O, I, O, O, O, O, O, O, O, O, O, O, O, O);
    var p7 := Poly(O, O, O, O, O, O, O, I, O, O, O, O, O, O, O, O);
    var p15 := Poly(O, O, O, O, O, O, O, O, O, O, O, O, O, O, O, I);
    assert Power(0) == ONE && Power(1) == p1;
    Climb(1, p1, true, p3);
    Climb(3, p3, true, p7);
    Climb(7, p7, true, p15);
  }

  /** Two flipped bits go unnoticed exactly when they are a multiple of 32767 apart. */
  lemma TwoBitErrorsExactly(sent: seq<Octet>, received: seq<Octet>, i: nat, j: nat)
    requires |sent| == |received| && Codeword(sent) && TwoBits(ErrorBits(sent, received), i, j)
    ensures Codeword(received) <==> (j - i) % 32767 == 0
  {
    UndetectedExactly(sent, received);
    TwoBitsRemain(ErrorBits(sent, received), i, j);
  }
}
