/** The computing part of the gcd web form (src/main.rs): the `gcd` function,
    Euclid's algorithm on unsigned 64-bit integers, and the part of the
    `post_gcd` handler that gathers the submitted numbers and folds `gcd`
    over them. Form decoding, number parsing and the HTTP response are not
    part of this model; the handler is given the already parsed values. */
module GcdServer {
  import opened Divisibility

  /** Rust's `u64`. */
  type U64 = x: nat | x < 0x1_0000_0000_0000_0000

  /** Why the handler thread panics instead of answering. */
  datatype Panic =
    | IndexOutOfBounds  // `numbers[0]` on an empty list
    | ZeroArgument      // the non-zero assertion at the start of `gcd`

  /** What `post_gcd` does with the parsed numbers: panic, or answer `d`. */
  datatype Outcome = Panicked(cause: Panic) | Answered(d: U64)

  /** `gcd`: Euclid's algorithm. Both arguments must be non-zero (the
      function asserts it); the result is their greatest common divisor. */
  method Gcd(n0: U64, m0: U64) returns (r: U64)
    requires n0 != 0 && m0 != 0
    ensures IsGcd(r, n0, m0)
    ensures r == EuclidGcd(n0, m0)
    ensures 0 < r <= n0 && r <= m0
  {
    var n, m := n0, m0;
    while m != 0
      invariant n > 0
      invariant forall d :: Divides(d, n) && Divides(d, m) <==> Divides(d, n0) && Divides(d, m0)
      decreases n as nat + m as nat
    {
      if m < n {
        var t := m;
        m := n;
        n := t;
      }
      forall d
        ensures Divides(d, n) && Divides(d, m) <==> Divides(d, n) && Divides(d, m % n)
      {
        CommonDivisorsMod(d, m, n);
      }
      m := m % n;
    }
    r := n;
    DividesSelf(r);
    GcdCharacterization(r, n0, m0);
    DividesLe(r, n0);
    DividesLe(r, m0);
  }

  /** The two `for` loops of `post_gcd` that push every parsed `n` value and
      then every parsed `m` value onto `numbers`. */
  method CollectNumbers(ns: seq<U64>, ms: seq<U64>) returns (numbers: seq<U64>)
    ensures numbers == ns + ms
  {
    numbers := [];
    for i := 0 to |ns|
      invariant numbers == ns[..i]
    {
      numbers := numbers + [ns[i]];
    }
    for j := 0 to |ms|
      invariant numbers == ns + ms[..j]
    {
      numbers := numbers + [ms[j]];
    }
  }

  /** The fold at the end of `post_gcd`: `d` starts as `numbers[0]` and
      becomes `gcd(d, x)` for every later `x`. It panics on an empty list
      and whenever a zero reaches `gcd`, which happens exactly when the list
      has two or more elements and one of them is zero; a one-element list
      is answered with that element, zero included. Otherwise the answer is
      the greatest common divisor of the whole list. */
  method FoldGcd(numbers: seq<U64>) returns (out: Outcome)
    ensures out == Panicked(IndexOutOfBounds) <==> |numbers| == 0
    ensures out == Panicked(ZeroArgument) <==>
      |numbers| >= 2 && !AllPositive(numbers)
    ensures out.Answered? <==> |numbers| == 1 || (|numbers| >= 2 && AllPositive(numbers))
    ensures |numbers| == 1 ==> out == Answered(numbers[0])
    ensures out.Answered? && |numbers| >= 2 ==>
      out.d > 0 && IsSeqGcd(out.d, numbers) && out.d == SeqGcd(numbers)
  {
    if |numbers| == 0 {
      return Panicked(IndexOutOfBounds);
    }
    var d := numbers[0];
    for i := 1 to |numbers|
      invariant d == SeqGcd(numbers[..i])
      invariant i >= 2 ==> d > 0 && AllPositive(numbers[..i])
    {
      if d == 0 || numbers[i] == 0 {
        assert numbers[0] == 0 || numbers[i] == 0;
        return Panicked(ZeroArgument);
      }
      assert numbers[..i + 1][..i] == numbers[..i];
      d := Gcd(d, numbers[i]);
    }
    assert numbers[..|numbers|] == numbers;
    if |numbers| >= 2 {
      SeqGcdIsGcd(numbers);
    }
    out := Answered(d);
  }

  /** The computing part of `post_gcd`: gather the parsed `n` and `m` values
      in that order, then fold `gcd` over them. When both groups are present
      and free of zeros, the answer divides every submitted number, every
      common divisor of them divides it, and it is the gcd of the two groups'
      gcds. */
  method PostGcd(ns: seq<U64>, ms: seq<U64>) returns (out: Outcome)
    ensures out == Panicked(IndexOutOfBounds) <==> |ns| + |ms| == 0
    ensures out == Panicked(ZeroArgument) <==>
      |ns| + |ms| >= 2 && !AllPositive(ns + ms)
    ensures out.Answered? <==> |ns| + |ms| == 1 || (|ns| + |ms| >= 2 && AllPositive(ns + ms))
    ensures |ns| + |ms| == 1 ==> out == Answered((ns + ms)[0])
    ensures out.Answered? && |ns| + |ms| >= 2 ==>
      out.d > 0 && IsSeqGcd(out.d, ns + ms) && out.d == SeqGcd(ns + ms)
    ensures |ns| > 0 && |ms| > 0 && AllPositive(ns) && AllPositive(ms) ==>
      out.Answered? && out.d == EuclidGcd(SeqGcd(ns), SeqGcd(ms))
  {
    var numbers := CollectNumbers(ns, ms);
    out := FoldGcd(numbers);
    if |ns| > 0 && |ms| > 0 && AllPositive(ns) && AllPositive(ms) {
      assert AllPositive(numbers) by {
        forall i | 0 <= i < |numbers| ensures numbers[i] > 0 {
          if i >= |ns| {
            assert numbers[i] == ms[i - |ns|];
          }
        }
      }
      SeqGcdConcat(ns, ms);
    }
  }
}
