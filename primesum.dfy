/** `Math.computePrimeSum`: Lucy Hedgehog's sieve for the sum of the primes
    up to `range`. It works on the distinct values `range / i` (for `i` up
    to the square root `r`) together with `1 .. range / r - 1`, kept in the
    array `V` from largest to smallest, and a map `S` from each of them to
    a running sum; one pass per candidate `p` from 2 to `r` removes the
    multiples of `p` from every sum that can hold one. */
module PrimeSums {
  import opened Outcomes
  import opened Primes

  const INT_MIN: int := -0x8000_0000
  const INT_MAX: int := 0x7fff_ffff

  /** The integer square root: `(int) Math.sqrt(n)` for `n >= 0`. */
  function ISqrt(n: nat): (s: nat)
    ensures s * s <= n < (s + 1) * (s + 1)
  {
    if n == 0 then 0
    else
      var h := ISqrt(n / 4);
      SqrtDouble(n, h);
      if (2 * h + 1) * (2 * h + 1) <= n then 2 * h + 1 else 2 * h
  }

  /** Doubling the root of `n / 4` comes within one of the root of `n`. */
  lemma SqrtDouble(n: nat, h: nat)
    requires h * h <= n / 4 < (h + 1) * (h + 1)
    ensures (2 * h) * (2 * h) <= n < (2 * h + 2) * (2 * h + 2)
  {
    assert (2 * h) * (2 * h) == 4 * (h * h);
    assert (2 * h + 2) * (2 * h + 2) == 4 * ((h + 1) * (h + 1));
  }

  /** The sum `2 + 3 + ... + v` that every value starts from. */
  function Initial(v: int): int
  {
    v * (v + 1) / 2 - 1
  }

  /** Lucy's recurrence: the sum of the numbers in `2 .. v` that have no
      divisor in `2 .. p` other than themselves. Round `p` changes nothing
      unless `p` itself survived round `p - 1` (it is prime) and `v`
      reaches `p * p`; then it takes away `p` times the surviving numbers in
      `p .. v / p`. */
  function Lucy(v: int, p: int): int
    requires p >= 1
    decreases p
  {
    if p == 1 then Initial(v)
    else if Lucy(p, p - 1) > Lucy(p - 1, p - 1) && v >= p * p then
      Lucy(v, p - 1) - p * (Lucy(v / p, p - 1) - Lucy(p - 1, p - 1))
    else Lucy(v, p - 1)
  }

  /** Java's `/` on `long`: the quotient truncated toward zero. */
  function JavaDiv(a: int, b: int): int
    requires b > 0
  {
    if a >= 0 then a / b else -((-a) / b)
  }

  /** Java's `int` addition: the sum wrapped into 32 bits. */
  function WrapInt(x: int): (w: int)
    ensures INT_MIN <= w <= INT_MAX
    ensures INT_MIN <= x <= INT_MAX ==> w == x
  {
    (x - INT_MIN) % 0x1_0000_0000 + INT_MIN
  }

  /** The initial sum as written, `(long) vi * (vi + 1) / 2 - 1`: the cast
      applies to `vi` alone, so `vi + 1` is computed in `int` and wraps
      when `vi` is `Integer.MAX_VALUE`. */
  function InitialAsWritten(vi: int): int
    requires INT_MIN <= vi <= INT_MAX
  {
    JavaDiv(vi * WrapInt(vi + 1), 2) - 1
  }

  /** The initial sum as written is the intended one for every value
      below `Integer.MAX_VALUE`. */
  lemma InitialAsWrittenBelowMax(vi: int)
    requires 1 <= vi < INT_MAX
    ensures InitialAsWritten(vi) == Initial(vi)
  {
    assert WrapInt(vi + 1) == vi + 1;
  }

  /** At `Integer.MAX_VALUE`, the value of `V[0]` when `range` is the
      largest `int`, the sum as written comes out negative. */
  lemma InitialOverflowsAtMax()
    ensures InitialAsWritten(INT_MAX) == -2305843008139952129
    ensures Initial(INT_MAX) == 2305843008139952127
  {
    assert WrapInt(INT_MAX + 1) == INT_MIN;
  }

  /** `V` as the two fill loops leave it: `range / (j + 1)` at the first
      `r` places, then `p - 1` down to `1`, where `p == range / r`. */
  ghost predicate Filled(v: seq<int>, range: int, r: int, p: int)
  {
    |v| == r + p - 1 &&
    forall j :: 0 <= j < |v| ==> v[j] == if j < r then range / (j + 1) else r + p - 1 - j
  }

  /** The square root's share of the range: `r` at least 1, `r * r` within
      the range and `p` its quotient by `r`. */
  ghost predicate Split(range: int, r: int, p: int)
  {
    1 <= r && r * r <= range && p == range / r
  }

  /** Multiplying by a non-negative number keeps the order. */
  lemma MulMono(x: int, y: int, c: int)
    requires x <= y && c >= 0
    ensures x * c <= y * c
  {
    assert y * c - x * c == (y - x) * c;
  }

  /** A strict order of multiples of a positive number is one of the
      factors. */
  lemma MulCancel(x: int, y: int, b: int)
    requires b > 0 && x * b < y * b
    ensures x < y
  {
    assert (y - x) * b == y * b - x * b;
  }

  /** The quotient's multiple fits, the next one does not. */
  lemma DivBounds(a: int, b: int)
    requires b > 0
    ensures (a / b) * b <= a < (a / b + 1) * b
  {
    assert a == (a / b) * b + a % b;
    assert (a / b + 1) * b == (a / b) * b + b;
  }

  /** A quotient is at least any `q` whose multiple fits. */
  lemma DivAtLeast(a: int, b: int, q: int)
    requires b > 0 && q * b <= a
    ensures q <= a / b
  {
    DivBounds(a, b);
    MulCancel(q, a / b + 1, b);
  }

  /** A quotient is below any `q` whose multiple does not fit. */
  lemma DivBelow(a: int, b: int, q: int)
    requires b > 0 && a < q * b
    ensures a / b < q
  {
    DivBounds(a, b);
    MulCancel(a / b, q, b);
  }

  /** Dividing by more gives less. */
  lemma DivAntitone(a: int, b: int, c: int)
    requires a >= 0 && 0 < b <= c
    ensures a / c <= a / b
  {
    DivBounds(a, c);
    assert a / c >= 0;
    MulMono(b, c, a / c);
    assert (a / c) * b <= a;
    DivAtLeast(a, b, a / c);
  }

  /** Dividing twice is dividing by the product. */
  lemma DivDiv(a: int, b: int, c: int)
    requires a >= 0 && b > 0 && c > 0
    ensures a / b / c == a / (b * c)
  {
    var m, q := a / b, a / b / c;
    DivBounds(a, b);
    DivBounds(m, c);
    assert q * (b * c) <= a by {
      MulMono(q * c, m, b);
      assert q * (b * c) == (q * c) * b;
    }
    assert a < (q + 1) * (b * c) by {
      MulMono(m + 1, (q + 1) * c, b);
      assert (m + 1) * b == m * b + b;
      assert (q + 1) * (b * c) == ((q + 1) * c) * b;
    }
    DivAtLeast(a, b * c, q);
    DivBelow(a, b * c, q + 1);
  }

  /** Below the square root the quotients fall by more than one each
      step, so `range / a > range / b` for `a < b <= r`. */
  lemma QuotientsFall(range: int, r: int, a: int, b: int)
    requires 1 <= r && r * r <= range && 1 <= a < b <= r
    ensures range / b < range / a
  {
    var q := range / b;
    MulMono(b, r, r);
    DivAtLeast(range, b, r);
    DivBounds(range, b);
    MulMono(1, b - a, q);
    assert (q + 1) * a == q * a + a;
    assert q * a + q * (b - a) == q * b;
    DivAtLeast(range, a, q + 1);
  }

  /** `V` runs strictly downward, so the scan of a pass meets each value
      once, largest first. */
  lemma Decreasing(v: seq<int>, range: int, r: int, p: int)
    requires Split(range, r, p) && Filled(v, range, r, p)
    ensures forall j, k :: 0 <= j < k < |v| ==> v[j] > v[k]
  {
    forall j, k | 0 <= j < k < |v|
      ensures v[j] > v[k]
    {
      if k < r {
        QuotientsFall(range, r, j + 1, k + 1);
      } else if j < r {
        DivAntitone(range, j + 1, r);
      }
    }
  }

  /** Every value from 1 to `p` is in `V`: `p` at place `r - 1`, a smaller
      `w` at place `r + p - 1 - w`. */
  lemma SmallPlace(v: seq<int>, range: int, r: int, p: int, w: int) returns (k: int)
    requires Split(range, r, p) && Filled(v, range, r, p) && 1 <= w <= p
    ensures 0 <= k < |v| && v[k] == w
    ensures w == p ==> k == r - 1
    ensures w < p ==> k == r + p - 1 - w
  {
    if w == p {
      k := r - 1;
    } else {
      k := r + p - 1 - w;
    }
  }

  /** A value that reaches `d * d` has a quotient by `d` of at least `d`
      and below the value itself. */
  lemma QuotientBounds(x: int, d: int)
    requires 2 <= d && d * d <= x
    ensures d <= x / d < x
  {
    DivAtLeast(x, d, d);
    MulMono(2, d, x);
    DivBelow(x, d, x);
  }

  /** The value the pass for `d` reads beside `V[i]`, namely `V[i] / d`,
      is in `V`, after place `i`. */
  lemma QuotientPlace(v: seq<int>, range: int, r: int, p: int, i: int, d: int) returns (k: int)
    requires Split(range, r, p) && Filled(v, range, r, p)
    requires 0 <= i < |v| && 2 <= d && d * d <= v[i]
    ensures i < k < |v| && v[k] == v[i] / d
  {
    var w := v[i] / d;
    assert d <= w < v[i] by { QuotientBounds(v[i], d); }
    assert r <= p && r < |v| by { DivAtLeast(range, r, r); }
    if i < r {
      assert w == range / ((i + 1) * d) by {
        assert v[i] == range / (i + 1);
        DivDiv(range, i + 1, d);
      }
      if (i + 1) * d <= r {
        assert i + 1 < (i + 1) * d by { MulMono(2, d, i + 1); }
        k := (i + 1) * d - 1;
        assert v[k] == range / (k + 1);
      } else {
        assert w <= p by { DivAntitone(range, r, (i + 1) * d); }
        k := SmallPlace(v, range, r, p, w);
      }
    } else {
      assert v[i] == r + p - 1 - i;
      k := SmallPlace(v, range, r, p, w);
    }
  }

  /** The values of `V` are distinct: no other place holds `V[i]`. */
  lemma Distinct(v: seq<int>, range: int, r: int, p: int, i: int)
    requires Split(range, r, p) && Filled(v, range, r, p) && 0 <= i < |v|
    ensures forall j :: 0 <= j < |v| && j != i ==> v[j] != v[i]
  {
    Decreasing(v, range, r, p);
  }

  /** Past the first value below `d * d` every value is below it too, so
      round `d` leaves their sums alone. */
  lemma BelowSquare(v: seq<int>, range: int, r: int, p: int, i: int, d: int)
    requires Split(range, r, p) && Filled(v, range, r, p)
    requires 0 <= i < |v| && 2 <= d && v[i] < d * d
    ensures forall j :: i <= j < |v| ==> Lucy(v[j], d) == Lucy(v[j], d - 1)
  {
    Decreasing(v, range, r, p);
    forall j | i <= j < |v|
      ensures Lucy(v[j], d) == Lucy(v[j], d - 1)
    {
      assert v[j] <= v[i];
    }
  }

  /** Round `d` of the recurrence for a value that reaches `d * d`, when
      `d` survived round `d - 1`. */
  lemma RoundTaken(x: int, d: int)
    requires 2 <= d && d * d <= x && Lucy(d, d - 1) > Lucy(d - 1, d - 1)
    ensures Lucy(x, d) == Lucy(x, d - 1) - d * (Lucy(x / d, d - 1) - Lucy(d - 1, d - 1))
  {
  }

  /** The values of `V` are keys of `S`, and each maps to its sum after
      round `p`. */
  ghost predicate Sums(v: seq<int>, s: map<int, int>, p: int)
    requires p >= 1
  {
    forall j :: 0 <= j < |v| ==> v[j] in s && s[v[j]] == Lucy(v[j], p)
  }

  /** Round `p` changes no sum when `p` did not survive round `p - 1`. */
  lemma RoundSkipped(v: seq<int>, s: map<int, int>, p: int)
    requires p >= 2 && Sums(v, s, p - 1) && !(Lucy(p, p - 1) > Lucy(p - 1, p - 1))
    ensures Sums(v, s, p)
  {
  }

  /** The inner loop of round `d` (the source's `p`): scanning `V` from its
      largest value, each value that reaches `d * d` loses `d` times the
      surviving sum between `d` and its quotient by `d`; the scan stops at
      the first smaller value. Every sum is then that of round `d`. */
  method SievePass(V: array<int>, S: map<int, int>, d: int, sp: int, ghost range: int, ghost r: int, ghost p: int)
    returns (S': map<int, int>)
    requires Split(range, r, p) && Filled(V[..], range, r, p)
    requires 2 <= d && Sums(V[..], S, d - 1)
    requires Lucy(d, d - 1) > Lucy(d - 1, d - 1) && sp == Lucy(d - 1, d - 1)
    ensures Sums(V[..], S', d)
  {
    S' := S;
    var p2 := d * d;
    var i := 0;
    while i < V.Length
      invariant 0 <= i <= V.Length
      invariant forall j :: 0 <= j < V.Length ==> V[j] in S'
      invariant forall j :: 0 <= j < i ==> S'[V[j]] == Lucy(V[j], d)
      invariant forall j :: i <= j < V.Length ==> S'[V[j]] == Lucy(V[j], d - 1)
    {
      var vi := V[i];
      if vi < p2 {
        BelowSquare(V[..], range, r, p, i, d);
        break;
      }
      ghost var k := QuotientPlace(V[..], range, r, p, i, d);
      Distinct(V[..], range, r, p, i);
      RoundTaken(vi, d);
      S' := S'[vi := S'[vi] - d * (S'[vi / d] - sp)];
      i := i + 1;
    }
  }

  /** The two fill loops of `computePrimeSum`: `V` gets the `r` quotients
      `range / 1 .. range / r`, then `p - 1` down to `1`. */
  method FillQuotients(range: int, r: int, p: int) returns (V: array<int>)
    requires Split(range, r, p)
    ensures fresh(V) && Filled(V[..], range, r, p)
  {
    assert r <= p by { DivAtLeast(range, r, r); }
    V := new int[r + p - 1];
    var i := 1;
    while i < r + 1
      invariant 1 <= i <= r + 1
      invariant forall j :: 1 <= j < i ==> V[j - 1] == range / j
    {
      V[i - 1] := range / i;
      i := i + 1;
    }
    var count := 1;
    i := r + p - 2;
    while i >= r
      invariant r - 1 <= i <= r + p - 2
      invariant count == r + p - 2 - i + 1
      invariant forall j :: 0 <= j < r ==> V[j] == range / (j + 1)
      invariant forall j :: i < j < V.Length ==> V[j] == r + p - 1 - j
    {
      V[i] := count;
      count := count + 1;
      i := i - 1;
    }
  }

  /** The third loop: every value of `V` starts from the sum of `2 .. v`. */
  method InitialSums(V: array<int>) returns (S: map<int, int>)
    ensures Sums(V[..], S, 1)
  {
    S := map[];
    var i := 0;
    while i < V.Length
      invariant 0 <= i <= V.Length
      invariant forall j :: 0 <= j < i ==> V[j] in S && S[V[j]] == Initial(V[j])
    {
      var vi := V[i];
      S := S[vi := Initial(vi)];
      i := i + 1;
    }
  }

  /** The outer loop of `computePrimeSum`: rounds `2 .. r`, each run only
      when the candidate survived the round before it. */
  method SieveRounds(V: array<int>, S: map<int, int>, r: int, ghost range: int, ghost p0: int)
    returns (S': map<int, int>)
    requires Split(range, r, p0) && r <= p0 && Filled(V[..], range, r, p0) && Sums(V[..], S, 1)
    ensures Sums(V[..], S', r)
  {
    ghost var v := V[..];
    S' := S;
    var p := 2;
    while p < r + 1
      invariant 2 <= p <= r + 1
      invariant V[..] == v && Sums(v, S', p - 1)
    {
      ghost var a := SmallPlace(v, range, r, p0, p - 1);
      ghost var b := SmallPlace(v, range, r, p0, p);
      var temp1 := S'[p - 1];
      if S'[p] > temp1 {
        S' := SievePass(V, S', p, temp1, range, r, p0);
      } else {
        RoundSkipped(v, S', p);
      }
      p := p + 1;
    }
  }

  /** `computePrimeSum(range)`: a range below 1 has square root 0 and the
      division by it throws; otherwise the result is the sum for `range`
      after the round of its square root, which is the sum of the primes
      up to `range`. The initial sums are the intended ones (see
      `InitialAsWritten` for the source's). */
  method ComputePrimeSum(range: int) returns (result: Result<int>)
    requires INT_MIN <= range <= INT_MAX
    ensures range < 1 ==> result == Throw(Arithmetic)
    ensures range >= 1 ==> result == Ok(Lucy(range, ISqrt(range)))
    ensures range >= 1 ==> result == Ok(SumPrimes(range))
  {
    var r := if range < 0 then 0 else ISqrt(range);
    if r == 0 {
      assert range >= 0 ==> (r + 1) * (r + 1) > range;
      return Throw(Arithmetic);
    }
    var p := range / r;
    ghost var p0 := p;
    assert Split(range, r, p0);
    assert range >= 1 by { MulMono(1, r, r); }
    assert r <= p0 by { DivAtLeast(range, r, r); }
    var V := FillQuotients(range, r, p);
    var S := InitialSums(V);
    S := SieveRounds(V, S, r, range, p0);
    assert V[0] == range;
    assert S[V[0]] == Lucy(V[0], r);
    LucyIsPrimeSum(range);
    return Ok(S[range]);
  }

  /** For `range == 10`: the square root is 3 and the sum is
      `2 + 3 + 5 + 7 == 17`. */
  lemma TenGivesSeventeen()
    ensures ISqrt(10) == 3 && Lucy(10, 3) == 17
  {
    assert ISqrt(0) == 0;
    assert ISqrt(2) == 1;
    assert ISqrt(10) == 3;
    LucyIsPrimeSum(10);
    SumPrimesTen();
  }

  /** `n` is still counted after round `p`: it is at least 2 and no number
      in `2 .. p` below it divides it. */
  ghost predicate Survives(n: int, p: int)
  {
    n >= 2 && forall d :: 2 <= d <= p && d < n ==> n % d != 0
  }

  /** The sum of the numbers in `2 .. v` that survive round `p`: what
      Lucy's recurrence computes. */
  ghost function SurvivorSum(v: int, p: int): (s: int)
    decreases v
  {
    if v < 2 then 0 else SurvivorSum(v - 1, p) + (if Survives(v, p) then v else 0)
  }

  /** The survivors in `p .. x` of round `p - 1`: the cofactors of the
      numbers that round `p` takes away. */
  ghost function CofactorSum(x: int, p: int): (s: int)
    decreases x - p
  {
    if x < p then 0 else CofactorSum(x - 1, p) + (if Survives(x, p - 1) then x else 0)
  }

  /** Before any round every number from 2 up survives. */
  lemma {:induction false} InitialCounts(v: int)
    requires v >= 1
    ensures SurvivorSum(v, 1) == Initial(v)
    decreases v
  {
    if v > 1 {
      InitialCounts(v - 1);
      assert v * (v + 1) == (v - 1) * v + 2 * v;
    }
  }

  /** A number round `p` takes away is `p` times a survivor of round
      `p - 1` that is at least `p`. */
  lemma TakenAway(n: int, p: int)
    requires p >= 2 && Survives(n, p - 1) && !Survives(n, p)
    ensures n % p == 0 && n / p >= p && Survives(n / p, p - 1)
  {
    var m := n / p;
    ModZero(n, p);
    if m <= 1 {
      MulLeft(p, m, 1);
      assert false;
    }
    if m < p {
      MultipleMod(m, p);
      MulLeft(m, 2, p);
      assert false;
    }
    forall d | 2 <= d <= p - 1 && d < m
      ensures m % d != 0
    {
      if m % d == 0 {
        DividesMultiple(d, m, p);
        MulLeft(m, 1, p);
        assert false;
      }
    }
  }

  /** Conversely, round `p` takes away `p` times every survivor of round
      `p - 1` from `p` up, when `p` is prime (Euclid's lemma). */
  lemma Takes(m: int, p: int)
    requires IsPrime(p) && m >= p && Survives(m, p - 1)
    ensures Survives(p * m, p - 1) && !Survives(p * m, p)
  {
    MulLeft(p, 2, m);
    MultipleMod(p, m);
    forall d | 2 <= d <= p - 1 && d < p * m
      ensures (p * m) % d != 0
    {
      if (p * m) % d == 0 {
        var q := PrimeFactor(d);
        DividesTrans(q, d, p * m);
        Euclid(q, p, m);
        assert false;
      }
    }
  }

  /** For a multiple of a prime `p`: round `p` takes it away exactly when
      its cofactor is a survivor of round `p - 1` from `p` up. */
  lemma TakenIff(v: int, p: int)
    requires IsPrime(p) && v % p == 0
    ensures (Survives(v, p - 1) && !Survives(v, p)) <==> (v / p >= p && Survives(v / p, p - 1))
  {
    if Survives(v, p - 1) && !Survives(v, p) {
      TakenAway(v, p);
    }
    if v / p >= p && Survives(v / p, p - 1) {
      ModZero(v, p);
      Takes(v / p, p);
    }
  }

  /** A composite `p` takes nothing away: its smaller factor already did. */
  lemma CompositeRound(n: int, p: int)
    requires p >= 2 && !IsPrime(p)
    ensures Survives(n, p) == Survives(n, p - 1)
  {
    if Survives(n, p - 1) && !Survives(n, p) {
      TakenAway(n, p);
      var e :| 2 <= e < p && p % e == 0;
      DividesTrans(e, p, n);
      assert false;
    }
  }

  /** Below `p * p` round `p` takes nothing away. */
  lemma {:induction false} SmallRound(v: int, p: int)
    requires p >= 2 && (!IsPrime(p) || v < p * p)
    ensures SurvivorSum(v, p) == SurvivorSum(v, p - 1)
    decreases v
  {
    if v >= 2 {
      SmallRound(v - 1, p);
      if !IsPrime(p) {
        CompositeRound(v, p);
      } else if Survives(v, p - 1) && !Survives(v, p) {
        TakenAway(v, p);
        ModZero(v, p);
        MulLeft(p, p, v / p);
        assert false;
      }
    }
  }

  /** The quotient by `p` steps down at each multiple of `p` and stays
      put in between. */
  lemma PredecessorQuotient(v: int, p: int)
    requires p > 0
    ensures v % p == 0 ==> (v - 1) / p == v / p - 1
    ensures v % p != 0 ==> (v - 1) / p == v / p
  {
    var m := v / p;
    if v % p == 0 {
      assert p * (m - 1) + (p - 1) == v - 1;
      DivModUnique(v - 1, p, m - 1, p - 1);
    } else {
      DivModUnique(v - 1, p, m, v % p - 1);
    }
  }

  /** What round `p` takes away at `v` alone. */
  lemma TakenStep(v: int, p: int)
    requires v >= 2
    ensures (SurvivorSum(v, p - 1) - SurvivorSum(v, p)) - (SurvivorSum(v - 1, p - 1) - SurvivorSum(v - 1, p))
      == if Survives(v, p - 1) && !Survives(v, p) then v else 0
  {
  }

  /** What the cofactor sum gains at `m` alone. */
  lemma CofactorStep(m: int, p: int)
    ensures CofactorSum(m, p) - CofactorSum(m - 1, p) == if m >= p && Survives(m, p - 1) then m else 0
  {
  }

  /** Multiplication distributes over a difference. */
  lemma Distrib(p: int, a: int, b: int)
    ensures p * a - p * b == p * (a - b)
  {
  }

  /** What round `p` of a prime takes away at `v` is `p` times what the
      cofactor sum gains at `v / p`. */
  lemma PrimeRoundStep(v: int, p: int)
    requires IsPrime(p) && v >= 2
    ensures SurvivorSum(v, p - 1) - SurvivorSum(v, p) - p * CofactorSum(v / p, p)
      == SurvivorSum(v - 1, p - 1) - SurvivorSum(v - 1, p) - p * CofactorSum((v - 1) / p, p)
  {
    var m := v / p;
    TakenStep(v, p);
    PredecessorQuotient(v, p);
    if v % p == 0 {
      TakenIff(v, p);
      CofactorStep(m, p);
      Distrib(p, CofactorSum(m, p), CofactorSum(m - 1, p));
      ModZero(v, p);
    } else if Survives(v, p - 1) && !Survives(v, p) {
      TakenAway(v, p);
      assert false;
    }
  }

  /** Round `p` of a prime `p` takes away exactly `p` times the cofactor
      survivors up to `v / p`. */
  lemma {:induction false} PrimeRound(v: int, p: int)
    requires IsPrime(p) && v >= 0
    ensures SurvivorSum(v, p - 1) - SurvivorSum(v, p) == p * CofactorSum(v / p, p)
    decreases v
  {
    if v < 2 {
      assert v / p == 0;
      assert CofactorSum(0, p) == 0;
    } else {
      PrimeRound(v - 1, p);
      PrimeRoundStep(v, p);
    }
  }

  /** The cofactor survivors are the survivors past `p - 1`. */
  lemma {:induction false} CofactorCounts(x: int, p: int)
    requires p >= 2 && x >= p - 1
    ensures CofactorSum(x, p) == SurvivorSum(x, p - 1) - SurvivorSum(p - 1, p - 1)
    decreases x
  {
    if x >= p {
      CofactorCounts(x - 1, p);
    }
  }

  /** One round of Lucy's recurrence, when it takes something away. */
  lemma LucyTakes(v: int, p: int)
    requires p >= 2 && Lucy(p, p - 1) > Lucy(p - 1, p - 1) && v >= p * p
    ensures Lucy(v, p) == Lucy(v, p - 1) - p * (Lucy(v / p, p - 1) - Lucy(p - 1, p - 1))
  {
  }

  /** One round of Lucy's recurrence, when it takes nothing away. */
  lemma LucyKeeps(v: int, p: int)
    requires p >= 2 && !(Lucy(p, p - 1) > Lucy(p - 1, p - 1) && v >= p * p)
    ensures Lucy(v, p) == Lucy(v, p - 1)
  {
  }

  /** Round `p` of the recurrence takes something away exactly when `p`
      is prime, once the round before is known to count survivors. */
  lemma PrimeTest(p: int)
    requires p >= 2
    requires Lucy(p, p - 1) == SurvivorSum(p, p - 1) && Lucy(p - 1, p - 1) == SurvivorSum(p - 1, p - 1)
    ensures Lucy(p, p - 1) > Lucy(p - 1, p - 1) <==> IsPrime(p)
  {
    assert Survives(p, p - 1) == IsPrime(p);
  }

  /** The arithmetic of one counting round: the recurrence's update and
      the survivor sums' agree once their parts do. */
  lemma Substitute(lv: int, lv1: int, lm: int, lp1: int, sv: int, sv1: int, sm: int, sp1: int, c: int, p: int)
    requires lv == lv1 - p * (lm - lp1) && lv1 == sv1 && lm == sm && lp1 == sp1
    requires sv1 - sv == p * c && c == sm - sp1
    ensures lv == sv
  {
    assert lm - lp1 == c;
  }

  /** A round of a prime `p` reaching `v` keeps the recurrence equal to the
      survivor sum. */
  lemma TakesCounts(v: int, p: int, m: int)
    requires IsPrime(p) && v >= 1 && v >= p * p && m == v / p && m >= p
    requires Lucy(p, p - 1) > Lucy(p - 1, p - 1)
    requires Lucy(v, p - 1) == SurvivorSum(v, p - 1) && Lucy(m, p - 1) == SurvivorSum(m, p - 1)
    requires Lucy(p - 1, p - 1) == SurvivorSum(p - 1, p - 1)
    ensures Lucy(v, p) == SurvivorSum(v, p)
  {
    assert Lucy(v, p) == Lucy(v, p - 1) - p * (Lucy(m, p - 1) - Lucy(p - 1, p - 1)) by {
      LucyTakes(v, p);
    }
    assert SurvivorSum(v, p - 1) - SurvivorSum(v, p) == p * CofactorSum(m, p) by {
      PrimeRound(v, p);
    }
    assert CofactorSum(m, p) == SurvivorSum(m, p - 1) - SurvivorSum(p - 1, p - 1) by {
      CofactorCounts(m, p);
    }
    Substitute(Lucy(v, p), Lucy(v, p - 1), Lucy(m, p - 1), Lucy(p - 1, p - 1),
      SurvivorSum(v, p), SurvivorSum(v, p - 1), SurvivorSum(m, p - 1), SurvivorSum(p - 1, p - 1),
      CofactorSum(m, p), p);
  }

  /** Lucy's recurrence is the survivor sum: by induction on the round. */
  lemma {:induction false} LucyCounts(v: int, p: int)
    requires v >= 1 && p >= 1
    ensures Lucy(v, p) == SurvivorSum(v, p)
    decreases p
  {
    if p == 1 {
      InitialCounts(v);
    } else {
      LucyCounts(v, p - 1);
      LucyCounts(p, p - 1);
      LucyCounts(p - 1, p - 1);
      PrimeTest(p);
      if IsPrime(p) && v >= p * p {
        var m := v / p;
        assert m >= p by { DivAtLeast(v, p, p); }
        LucyCounts(m, p - 1);
        TakesCounts(v, p, m);
      } else {
        LucyKeeps(v, p);
        SmallRound(v, p);
      }
    }
  }

  /** A composite number has a factor at least 2 whose square does not
      exceed it. */
  lemma SmallFactor(v: int) returns (a: int)
    requires v >= 2 && !IsPrime(v)
    ensures 2 <= a < v && v % a == 0 && a * a <= v
  {
    var d :| 2 <= d < v && v % d == 0;
    var e := v / d;
    assert v == d * e by { ModZero(v, d); }
    assert e >= 2 by {
      if e <= 1 {
        MulLeft(d, e, 1);
        assert false;
      }
    }
    if d <= e {
      a := d;
      MulLeft(d, d, e);
    } else {
      a := e;
      FactorOf(v, d, e);
    }
  }

  /** The second factor of a product is a proper divisor no larger than
      the first's square. */
  lemma FactorOf(v: int, d: int, e: int)
    requires v == d * e && 2 <= e < d
    ensures e < v && v % e == 0 && e * e <= v
  {
    MulLeft(e, e, d);
    MultipleMod(e, d);
    MulLeft(e, 1, d);
  }

  /** After round `r` no composite number below `(r + 1) * (r + 1)`
      survives. */
  lemma CompositeGone(v: int, n: int, r: int)
    requires 2 <= v <= n < (r + 1) * (r + 1) && r >= 0 && !IsPrime(v)
    ensures !Survives(v, r)
  {
    var a := SmallFactor(v);
    if a > r {
      MulMono(r + 1, a, r + 1);
      MulMono(r + 1, a, a);
      assert false;
    }
  }

  /** After round `ISqrt(v)` the survivors up to `v` are the primes: a
      composite number has a factor no larger than its square root. */
  lemma {:induction false} RootRoundPrimes(v: int, n: int, r: int)
    requires 0 <= v <= n < (r + 1) * (r + 1) && r >= 0
    ensures SurvivorSum(v, r) == SumPrimes(v)
    decreases v
  {
    if v >= 2 {
      RootRoundPrimes(v - 1, n, r);
      if !IsPrime(v) {
        CompositeGone(v, n, r);
      }
    }
  }

  /** Lucy's sum for `v` after round `ISqrt(v)` is the sum of the primes up
      to `v`. */
  lemma LucyIsPrimeSum(v: int)
    requires v >= 1
    ensures Lucy(v, ISqrt(v)) == SumPrimes(v)
  {
    var r := ISqrt(v);
    MulMono(1, r, r);
    LucyCounts(v, r);
    RootRoundPrimes(v, v, r);
  }
}
