/** The arithmetic that the gcd web form promises: divisibility, the greatest
    common divisor of two numbers and of a non-empty list of numbers, and the
    facts about them that Euclid's algorithm relies on. */
module Divisibility {

  /** `d` is a positive divisor of `n`. */
  predicate Divides(d: nat, n: nat) {
    d > 0 && n % d == 0
  }

  /** `g` is a greatest common divisor of `a` and `b`: it divides both, and
      every common divisor of the two divides it. */
  ghost predicate IsGcd(g: nat, a: nat, b: nat) {
    Divides(g, a) && Divides(g, b) &&
    forall d :: Divides(d, a) && Divides(d, b) ==> Divides(d, g)
  }

  /** `d` divides every element of `s`. */
  ghost predicate DividesAll(d: nat, s: seq<nat>) {
    forall i :: 0 <= i < |s| ==> Divides(d, s[i])
  }

  /** `g` is a greatest common divisor of all elements of `s`. */
  ghost predicate IsSeqGcd(g: nat, s: seq<nat>) {
    DividesAll(g, s) && forall d :: DividesAll(d, s) ==> Divides(d, g)
  }

  /** Every element of `s` is positive. */
  predicate AllPositive(s: seq<nat>) {
    forall i :: 0 <= i < |s| ==> s[i] > 0
  }

  /** Reference definition of the greatest common divisor, by Euclid's
      remainder recursion (gcd(a, 0) = a). */
  ghost function EuclidGcd(a: nat, b: nat): nat
    decreases b
  {
    if b == 0 then a else EuclidGcd(b, a % b)
  }

  /** Left fold of `EuclidGcd` over a non-empty list: the value the web form's
      accumulator ends with. */
  ghost function SeqGcd(s: seq<nat>): nat
    requires |s| > 0
  {
    if |s| == 1 then s[0] else EuclidGcd(SeqGcd(s[..|s| - 1]), s[|s| - 1])
  }

  /** A multiple of a positive number leaves no remainder. */
  lemma MultipleMod(d: nat, k: int)
    requires d > 0
    ensures (d * k) % d == 0
  {
    var q, r := (d * k) / d, (d * k) % d;
    assert d * (k - q) == r;
    OnlyZeroMultipleBelow(d, k - q);
  }

  /** The only multiple of a positive `d` in [0, d) is 0. */
  lemma OnlyZeroMultipleBelow(d: nat, t: int)
    requires d > 0 && 0 <= d * t < d
    ensures t == 0
  {
  }

  /** A positive divisor of a positive number is at most that number. */
  lemma DividesLe(d: nat, n: nat)
    requires Divides(d, n) && n > 0
    ensures d <= n
  {
    var k := n / d;
    assert n == d * k;
    assert k >= 1;
    assert d * k >= d * 1;
  }

  /** Dividing two numbers is the same as dividing the smaller and the
      remainder of the larger by the smaller: the step of Euclid's algorithm. */
  lemma CommonDivisorsMod(d: nat, a: nat, b: nat)
    requires b > 0
    ensures Divides(d, a) && Divides(d, b) <==> Divides(d, b) && Divides(d, a % b)
  {
    if d > 0 && Divides(d, b) {
      var q, r := a / b, a % b;
      var y := b / d;
      assert b == d * y;
      assert a == b * q + r;
      assert a == d * (y * q) + r;
      if Divides(d, a) {
        var x := a / d;
        assert a == d * x;
        assert r == d * (x - y * q);
        MultipleMod(d, x - y * q);
      }
      if Divides(d, r) {
        var z := r / d;
        assert r == d * z;
        assert a == d * (y * q + z);
        MultipleMod(d, y * q + z);
      }
    }
  }

  /** Divisibility is reflexive on positive numbers. */
  lemma DividesSelf(a: nat)
    requires a > 0
    ensures Divides(a, a)
  {
    MultipleMod(a, 1);
  }

  /** Divisibility is transitive. */
  lemma DividesTrans(d: nat, e: nat, n: nat)
    requires Divides(d, e) && Divides(e, n)
    ensures Divides(d, n)
  {
    var x, y := e / d, n / e;
    assert e == d * x;
    assert n == e * y;
    assert n == d * (x * y);
    MultipleMod(d, x * y);
  }

  /** The reference `EuclidGcd` is a greatest common divisor whenever one of its
      arguments is positive. */
  lemma {:induction false} GcdIsGcd(a: nat, b: nat)
    requires a > 0
    ensures IsGcd(EuclidGcd(a, b), a, b)
    decreases b
  {
    if b == 0 {
      DividesSelf(a);
      forall d | Divides(d, a) && Divides(d, b)
        ensures Divides(d, EuclidGcd(a, b))
      {
      }
    } else {
      GcdIsGcd(b, a % b);
      var g := EuclidGcd(a, b);
      assert g == EuclidGcd(b, a % b);
      forall d
        ensures Divides(d, a) && Divides(d, b) <==> Divides(d, b) && Divides(d, a % b)
      {
        CommonDivisorsMod(d, a, b);
      }
    }
  }

  /** A greatest common divisor of two numbers that are not both zero is
      unique: two of them divide each other, so they are equal. */
  lemma GcdUnique(g: nat, h: nat, a: nat, b: nat)
    requires IsGcd(g, a, b) && IsGcd(h, a, b)
    ensures g == h
  {
    assert Divides(g, h) && Divides(h, g);
    DividesLe(g, h);
    DividesLe(h, g);
  }

  /** The reference `EuclidGcd` is the only greatest common divisor. */
  lemma GcdCharacterization(g: nat, a: nat, b: nat)
    requires a > 0
    ensures IsGcd(g, a, b) <==> g == EuclidGcd(a, b)
  {
    GcdIsGcd(a, b);
    if IsGcd(g, a, b) {
      GcdUnique(g, EuclidGcd(a, b), a, b);
    }
  }

  /** The order of the two arguments does not matter. */
  lemma GcdCommutes(a: nat, b: nat)
    requires a > 0 && b > 0
    ensures EuclidGcd(a, b) == EuclidGcd(b, a)
  {
    GcdIsGcd(a, b);
    GcdIsGcd(b, a);
    GcdUnique(EuclidGcd(a, b), EuclidGcd(b, a), a, b);
  }

  /** The gcd of two positive numbers is positive and at most either of them. */
  lemma GcdBounds(a: nat, b: nat)
    requires a > 0 && b > 0
    ensures 0 < EuclidGcd(a, b) <= a && EuclidGcd(a, b) <= b
  {
    GcdIsGcd(a, b);
    DividesLe(EuclidGcd(a, b), a);
    DividesLe(EuclidGcd(a, b), b);
  }

  /** The worked values from the documentation and the unit test. */
  lemma GcdExamples()
    ensures EuclidGcd(2, 4) == 2
    ensures EuclidGcd(14, 15) == 1
    ensures EuclidGcd(2 * 3 * 5 * 11 * 17, 3 * 7 * 11 * 13 * 19) == 3 * 11
  {
    assert EuclidGcd(2, 4) == EuclidGcd(4, 2) == EuclidGcd(2, 0) == 2;
    assert EuclidGcd(14, 15) == EuclidGcd(15, 14) == EuclidGcd(14, 1) == EuclidGcd(1, 0) == 1;
    assert 2 * 3 * 5 * 11 * 17 == 5610 && 3 * 7 * 11 * 13 * 19 == 57057;
    assert EuclidGcd(5610, 57057) == EuclidGcd(57057, 5610) == EuclidGcd(5610, 957);
    assert EuclidGcd(5610, 957) == EuclidGcd(957, 825) == EuclidGcd(825, 132);
    assert EuclidGcd(825, 132) == EuclidGcd(132, 33) == EuclidGcd(33, 0) == 33;
  }

  /** The folded gcd of a zero-free list is its greatest common divisor. */
  lemma {:induction false} SeqGcdIsGcd(s: seq<nat>)
    requires |s| > 0
    requires AllPositive(s)
    ensures SeqGcd(s) > 0
    ensures IsSeqGcd(SeqGcd(s), s)
    decreases |s|
  {
    if |s| == 1 {
      DividesSelf(s[0]);
    } else {
      var p, x := s[..|s| - 1], s[|s| - 1];
      assert s == p + [x];
      SeqGcdIsGcd(p);
      var g := SeqGcd(p);
      assert SeqGcd(s) == EuclidGcd(g, x);
      GcdIsGcd(g, x);
      PushCommonDivisors(g, p, x);
    }
  }

  /** Extending a list by `x` turns a greatest common divisor `g` of the list
      into the greatest common divisor of `g` and `x`. */
  lemma PushCommonDivisors(g: nat, p: seq<nat>, x: nat)
    requires |p| > 0 && g > 0 && IsSeqGcd(g, p)
    ensures forall d :: DividesAll(d, p + [x]) <==> Divides(d, g) && Divides(d, x)
    ensures IsSeqGcd(EuclidGcd(g, x), p + [x])
  {
    var s := p + [x];
    forall d
      ensures DividesAll(d, s) <==> Divides(d, g) && Divides(d, x)
    {
      if DividesAll(d, s) {
        assert DividesAll(d, p) by {
          forall i | 0 <= i < |p| ensures Divides(d, p[i]) {
            assert s[i] == p[i];
          }
        }
        assert s[|p|] == x;
      }
      if Divides(d, g) && Divides(d, x) {
        forall i | 0 <= i < |s| ensures Divides(d, s[i]) {
          if i < |p| {
            assert s[i] == p[i];
            DividesTrans(d, g, p[i]);
          }
        }
      }
    }
    GcdIsGcd(g, x);
  }

  /** A number divides every element of a concatenation exactly when it
      divides every element of both parts. */
  lemma DividesAllConcat(d: nat, a: seq<nat>, b: seq<nat>)
    ensures DividesAll(d, a + b) <==> DividesAll(d, a) && DividesAll(d, b)
  {
    var s := a + b;
    if DividesAll(d, s) {
      forall i | 0 <= i < |a| ensures Divides(d, a[i]) {
        assert s[i] == a[i];
      }
      forall i | 0 <= i < |b| ensures Divides(d, b[i]) {
        assert s[|a| + i] == b[i];
      }
    }
    if DividesAll(d, a) && DividesAll(d, b) {
      forall i | 0 <= i < |s| ensures Divides(d, s[i]) {
        if i < |a| {
          assert s[i] == a[i];
        } else {
          assert s[i] == b[i - |a|];
        }
      }
    }
  }

  /** The common divisors of a zero-free list are exactly the divisors of its
      folded gcd. */
  lemma SeqGcdCommonDivisors(s: seq<nat>, d: nat)
    requires |s| > 0
    requires AllPositive(s)
    ensures DividesAll(d, s) <==> Divides(d, SeqGcd(s))
  {
    SeqGcdIsGcd(s);
    if Divides(d, SeqGcd(s)) {
      forall i | 0 <= i < |s| ensures Divides(d, s[i]) {
        DividesTrans(d, SeqGcd(s), s[i]);
      }
    }
  }

  /** Folding all `n` values and then all `m` values gives the gcd of the two
      partial results: the answer depends only on the two groups' gcds. */
  lemma SeqGcdConcat(ns: seq<nat>, ms: seq<nat>)
    requires |ns| > 0 && |ms| > 0
    requires AllPositive(ns) && AllPositive(ms)
    ensures SeqGcd(ns + ms) == EuclidGcd(SeqGcd(ns), SeqGcd(ms))
  {
    var s := ns + ms;
    var g1, g2, g := SeqGcd(ns), SeqGcd(ms), SeqGcd(s);
    SeqGcdIsGcd(ns);
    SeqGcdIsGcd(ms);
    forall d
      ensures Divides(d, g) <==> Divides(d, g1) && Divides(d, g2)
    {
      DividesAllConcat(d, ns, ms);
      SeqGcdCommonDivisors(ns, d);
      SeqGcdCommonDivisors(ms, d);
      SeqGcdCommonDivisors(s, d);
    }
    SeqGcdIsGcd(s);
    DividesSelf(g);
    GcdCharacterization(g, g1, g2);
  }

  /** Swapping the two groups of values does not change the answer. */
  lemma SeqGcdConcatSwap(ns: seq<nat>, ms: seq<nat>)
    requires |ns| > 0 && |ms| > 0
    requires AllPositive(ns) && AllPositive(ms)
    ensures SeqGcd(ns + ms) == SeqGcd(ms + ns)
  {
    SeqGcdConcat(ns, ms);
    SeqGcdConcat(ms, ns);
    SeqGcdIsGcd(ns);
    SeqGcdIsGcd(ms);
    GcdCommutes(SeqGcd(ns), SeqGcd(ms));
  }

  /** The greatest common divisor of a list of positive numbers is unique,
      and it is the folded `EuclidGcd`. */
  lemma SeqGcdCharacterization(g: nat, s: seq<nat>)
    requires |s| > 0 && AllPositive(s)
    ensures IsSeqGcd(g, s) <==> g == SeqGcd(s)
  {
    SeqGcdIsGcd(s);
    if IsSeqGcd(g, s) {
      var h := SeqGcd(s);
      assert Divides(g, s[0]) && Divides(h, s[0]);
      assert Divides(g, h) && Divides(h, g);
      DividesLe(g, h);
      DividesLe(h, g);
    }
  }
}
