# GCD web form: Euclid's algorithm and the handler's fold

The repository's web form asks for numbers in two fields, `n` and `m`, and
answers with their greatest common divisor. This project models the part of
`src/main.rs` that computes that answer:

- `gcd(n, m)`, Euclid's algorithm on `u64` written as a `while` loop. It
  asserts that both arguments are non-zero. Each round makes `m` the larger
  of the two and then replaces it by `m % n`. The function returns `n`.
- the computing part of the `post_gcd` handler. It pushes every parsed `n`
  value and then every parsed `m` value onto `numbers`. It starts `d` at
  `numbers[0]` and sets `d = gcd(d, x)` for every later `x`.

Two modules:

- `Divisibility` (`divisibility.dfy`) holds the mathematics the output
  message promises. `Divides(d, n)` means "d is a positive divisor of n".
  `IsGcd` and `IsSeqGcd` say "divides everything, and every common divisor
  divides it". `EuclidGcd` is the reference definition by Euclid's remainder
  recursion. `SeqGcd` is the left fold of `EuclidGcd`. The lemmas prove that both
  reference definitions meet that characterisation, that each characterisation (for a pair and for a list) has only one
  solution, and how the fold behaves when the two fields are joined.
- `GcdServer` (`gcd_server.dfy`) holds the source's code as methods with
  loops. `Gcd` is the `gcd` function, with its non-zero assertion as the
  precondition. `CollectNumbers` is the two pushing loops. `FoldGcd` is the
  fold. `PostGcd` is collection followed by the fold. `u64` is the subset
  type `U64` of naturals below 2^64. No arithmetic can leave that range,
  because `%` only makes values smaller.

The handler does not check its input before folding, so the model treats
panics as results (`Outcome`). `numbers[0]` on an empty list panics with an
index error. A zero that reaches `gcd` trips its assertion. That happens
exactly when the list has at least two elements and one of them is zero.
A one-element list is answered with that element, even when it is 0,
because `gcd` is never called.

## Model

| member | source | states |
|---|---|---|
| GcdServer.Gcd | src/main.rs:23-34 | for non-zero `u64` arguments the loop terminates and returns a value that divides both arguments; every common divisor divides it; it equals the reference gcd; it is positive and at most either argument |
| GcdServer.CollectNumbers | src/main.rs:98-124 | `numbers` is every `n` value in order followed by every `m` value in order |
| GcdServer.FoldGcd | src/main.rs:126-129 | panics with an index error exactly on an empty list; panics in `gcd` exactly when there are two or more numbers and one is zero; answers in every other case; a one-element list is answered with its element; otherwise the answer is positive, divides every number, every common divisor of the numbers divides it, and it is the folded gcd |
| GcdServer.PostGcd | src/main.rs:98-129 | for the collected list, the `n` values followed by the `m` values: an index panic exactly when both fields are empty; a panic in `gcd` exactly when there are two or more numbers and one is zero; an answer in every other case; a single number is answered with itself; otherwise the answer is positive, divides every number, every common divisor divides it, and it is the folded gcd; when both fields hold at least one number and none is zero it answers with the gcd of the two fields' gcds |
| Divisibility.GcdIsGcd | src/main.rs:23-34 | Euclid's remainder recursion, started with a positive first argument, yields a common divisor that every common divisor divides |
| Divisibility.GcdUnique | src/main.rs:10 | two greatest common divisors of the same pair are equal, so "the greatest common divisor" is well defined |
| Divisibility.GcdCharacterization | src/main.rs:10 | a value is a greatest common divisor of `a > 0` and `b` if and only if it equals the reference `EuclidGcd(a, b)` |
| Divisibility.CommonDivisorsMod | src/main.rs:31 | for `b > 0`, the common divisors of `a` and `b` are exactly the common divisors of `b` and `a % b`, so the step `m = m % n` keeps the answer |
| Divisibility.GcdCommutes | src/main.rs:26-30 | swapping the two arguments does not change the gcd, so the swap in the loop keeps the answer |
| Divisibility.GcdBounds | src/main.rs:24-33 | the gcd of two positive numbers is positive and at most each of them, so it fits in `u64` |
| Divisibility.GcdExamples | src/main.rs:36-41 | gcd(14, 15) = 1 and gcd(2·3·5·11·17, 3·7·11·13·19) = 3·11 from the unit test, and gcd(2, 4) = 2 from the example at line 15 |
| Divisibility.SeqGcdIsGcd | src/main.rs:126-129 | folding `EuclidGcd` over a non-empty list of positive numbers gives a positive value that divides every element, and every common divisor of the elements divides it |
| Divisibility.SeqGcdCharacterization | src/main.rs:133-135 | a value is a greatest common divisor of a non-empty list of positive numbers if and only if it equals the folded gcd, so "the greatest common divisor of the numbers" names exactly one value |
| Divisibility.PushCommonDivisors | src/main.rs:127-128 | one more fold step: the common divisors of the list extended by `x` are the common divisors of the running gcd and `x` |
| Divisibility.SeqGcdCommonDivisors | src/main.rs:133-135 | the common divisors of a list of positive numbers are exactly the divisors of its folded gcd |
| Divisibility.SeqGcdConcat | src/main.rs:98-129 | the fold over the `n` values followed by the `m` values equals the gcd of the two groups' folds |
| Divisibility.SeqGcdConcatSwap | src/main.rs:98-124 | putting the `m` values before the `n` values would give the same answer |

## Left out

- The Iron web server, the router and port binding in `main` (src/main.rs:44-52): network I/O through libraries that are not part of this model.
- `get_form` and all response construction: status codes, MIME types and the HTML text (src/main.rs:54-69, 131-138). The answer `d` is what the model returns.
- Form-body decoding and the lookup of the `n` and `m` keys (src/main.rs:74-97). These go through a foreign library, so the model takes the two value lists as inputs.
- Parsing with `u64::from_str` and the "not a number" replies (src/main.rs:99-124). The model takes the already parsed values. The message for a bad `m` value names the `n` parameter (line 118). This only affects the text of the reply, so it is not modelled.
- A panic in the handler is modelled as an `Outcome` value. What the web server then sends to the client is not modelled.
- The repository's fractal renderer and its arithmetic command-line tools are not part of this model. Their source is not among the files modelled here, and the renderer relies on floating-point arithmetic and threads.
