/** The byte counters and Jain's fairness index of examples/tcp/dctcp-example.cc (103-152,
    183-228), in 64-bit unsigned arithmetic. */
module Fairness {
  import opened Options

  /** Unsigned 64-bit arithmetic wraps around here. */
  const WORD: nat := 0x1_0000_0000_0000_0000

  // ---------------------------------------------------------------- exact sums

  ghost function Sum(xs: seq<nat>): nat {
    if xs == [] then 0 else Sum(xs[..|xs| - 1]) + xs[|xs| - 1]
  }

  ghost function SumSquares(xs: seq<nat>): nat {
    if xs == [] then 0 else SumSquares(xs[..|xs| - 1]) + xs[|xs| - 1] * xs[|xs| - 1]
  }

  /** The sum of squared distances from `x`. */
  ghost function Spread(xs: seq<nat>, x: nat): nat {
    if xs == [] then 0 else Spread(xs[..|xs| - 1], x) + Square(xs[|xs| - 1] - x)
  }

  function Square(a: int): nat {
    a * a
  }

  ghost predicate AllEqual(xs: seq<nat>) {
    forall i, j | 0 <= i < |xs| && 0 <= j < |xs| :: xs[i] == xs[j]
  }

  /** At most one flow received anything. */
  ghost predicate OneTakesAll(xs: seq<nat>) {
    forall i, j | 0 <= i < j < |xs| :: xs[i] == 0 || xs[j] == 0
  }

  // ---------------------------------------------------------------- algebra

  lemma Distribute(a: int, b: int, c: int)
    ensures (a + b) * c == a * c + b * c
  {
  }

  lemma SquareOfSum(a: int, b: int)
    ensures (a + b) * (a + b) == a * a + 2 * (a * b) + b * b
  {
  }

  lemma SquareOfDifference(a: int, b: int)
    ensures (a - b) * (a - b) == a * a - 2 * (a * b) + b * b
  {
  }

  lemma GapAlgebra(n: int, s: int, q: int, y: int, z: int)
    requires z == y * y
    ensures (n + 1) * (q + z) - (s + y) * (s + y) == (n * q - s * s) + (q - 2 * (s * y) + n * z)
  {
    SquareOfSum(s, y);
    Distribute(n, 1, q + z);
    assert n * (q + z) == n * q + n * z;
  }

  lemma SquareMonotone(a: nat, b: nat)
    requires a <= b
    ensures a * a <= b * b
  {
    assert a * a <= a * b;
    assert a * b <= b * b;
  }

  lemma ScaleMonotone(k: nat, a: nat, b: nat)
    requires a <= b
    ensures k * a <= k * b
  {
  }

  // ---------------------------------------------------------------- the inequalities

  lemma {:induction false} SpreadExpanded(xs: seq<nat>, x: nat)
    ensures Spread(xs, x) == SumSquares(xs) - 2 * (Sum(xs) * x) + |xs| * (x * x)
  {
    if xs != [] {
      var front, y := xs[..|xs| - 1], xs[|xs| - 1];
      SpreadExpanded(front, x);
      SquareOfDifference(y, x);
      Distribute(Sum(front), y, x);
      Distribute(|front|, 1, x * x);
    }
  }

  lemma SquareZero(a: int)
    ensures Square(a) == 0 <==> a == 0
  {
  }

  lemma {:induction false} SpreadZeroIff(xs: seq<nat>, x: nat)
    ensures Spread(xs, x) == 0 <==> forall i | 0 <= i < |xs| :: xs[i] == x
  {
    if xs != [] {
      SpreadZeroIff(xs[..|xs| - 1], x);
      SquareZero(xs[|xs| - 1] - x);
    }
  }

  /** How far `n` times the sum of squares exceeds the square of the sum. */
  ghost function Gap(xs: seq<nat>): int {
    |xs| * SumSquares(xs) - Sum(xs) * Sum(xs)
  }

  /** Adding a flow widens the gap by the spread of the others around it. */
  lemma GapNext(xs: seq<nat>)
    requires xs != []
    ensures Gap(xs) == Gap(xs[..|xs| - 1]) + Spread(xs[..|xs| - 1], xs[|xs| - 1])
  {
    var front, y := xs[..|xs| - 1], xs[|xs| - 1];
    SpreadExpanded(front, y);
    GapAlgebra(|front|, Sum(front), SumSquares(front), y, y * y);
  }

  lemma {:induction false} GapSign(xs: seq<nat>)
    ensures Gap(xs) >= 0 && (Gap(xs) == 0 <==> AllEqual(xs))
  {
    if xs != [] {
      var front, y := xs[..|xs| - 1], xs[|xs| - 1];
      assert xs == front + [y];
      GapSign(front);
      GapNext(xs);
      SpreadZeroIff(front, y);
      AllEqualNext(front, y);
    }
  }

  lemma AllEqualNext(front: seq<nat>, y: nat)
    ensures AllEqual(front + [y]) <==> forall i | 0 <= i < |front| :: front[i] == y
  {
    var xs := front + [y];
    if AllEqual(xs) {
      forall i | 0 <= i < |front|
        ensures front[i] == y
      {
        assert xs[i] == xs[|front|];
      }
    }
  }

  /** The square of the sum is at most `n` times the sum of squares, with equality exactly
      when all counts are equal. */
  lemma CauchySchwarz(xs: seq<nat>)
    ensures Sum(xs) * Sum(xs) <= |xs| * SumSquares(xs)
    ensures Sum(xs) * Sum(xs) == |xs| * SumSquares(xs) <==> AllEqual(xs)
  {
    GapSign(xs);
  }

  lemma {:induction false} SumZero(xs: seq<nat>)
    ensures Sum(xs) == 0 <==> forall i | 0 <= i < |xs| :: xs[i] == 0
  {
    if xs != [] {
      SumZero(xs[..|xs| - 1]);
    }
  }

  lemma ProductZero(a: nat, b: nat)
    ensures a * b == 0 <==> a == 0 || b == 0
  {
  }

  lemma OneTakesAllNext(front: seq<nat>, y: nat)
    ensures OneTakesAll(front + [y]) <==>
            OneTakesAll(front) && (y == 0 || forall i | 0 <= i < |front| :: front[i] == 0)
  {
    var xs := front + [y];
    if OneTakesAll(xs) {
      forall i, j | 0 <= i < j < |front|
        ensures front[i] == 0 || front[j] == 0
      {
        assert xs[i] == 0 || xs[j] == 0;
      }
      forall i | 0 <= i < |front|
        ensures y == 0 || front[i] == 0
      {
        assert xs[i] == 0 || xs[|front|] == 0;
      }
    }
  }

  /** The sum of squares is at most the square of the sum, with equality exactly when one
      flow at most received anything. */
  lemma {:induction false} SquaresBelowSquare(xs: seq<nat>)
    ensures SumSquares(xs) <= Sum(xs) * Sum(xs)
    ensures SumSquares(xs) == Sum(xs) * Sum(xs) <==> OneTakesAll(xs)
  {
    if xs != [] {
      var front, y := xs[..|xs| - 1], xs[|xs| - 1];
      assert xs == front + [y];
      SquaresBelowSquare(front);
      SumZero(front);
      SquareOfSum(Sum(front), y);
      ProductZero(Sum(front), y);
      OneTakesAllNext(front, y);
    }
  }

  lemma OneMoreTerm(s: nat, y: nat, n: nat, c: nat)
    requires s <= n * c && y <= c
    ensures s + y <= (n + 1) * c
  {
    Distribute(n, 1, c);
  }

  lemma {:induction false} SumsBounded(xs: seq<nat>, b: nat)
    requires forall i | 0 <= i < |xs| :: xs[i] <= b
    ensures Sum(xs) <= |xs| * b && SumSquares(xs) <= |xs| * (b * b)
  {
    if xs != [] {
      var n, y := |xs| - 1, xs[|xs| - 1];
      SumsBounded(xs[..n], b);
      SquareMonotone(y, b);
      OneMoreTerm(Sum(xs[..n]), y, n, b);
      OneMoreTerm(SumSquares(xs[..n]), y * y, n, b * b);
    }
  }

  lemma Regroup(n: nat, b: nat)
    ensures n * (n * (b * b)) == (n * b) * (n * b)
  {
    assert n * (n * (b * b)) == n * (b * (n * b)) == (n * b) * (n * b);
  }

  /** Nothing leaves 64 bits: the sums, and the two products of the ratio. */
  ghost predicate Fits(xs: seq<nat>) {
    Sum(xs) < WORD && SumSquares(xs) < WORD && Sum(xs) * Sum(xs) < WORD && |xs| * SumSquares(xs) < WORD
  }

  lemma BelowMultiple(k: nat, a: nat)
    requires k > 0
    ensures a <= k * a
  {
  }

  /** Everything fits if and only if the divisor of the ratio does. */
  lemma FitsIff(xs: seq<nat>)
    requires xs != []
    ensures Fits(xs) <==> |xs| * SumSquares(xs) < WORD
  {
    CauchySchwarz(xs);
    BelowMultiple(|xs|, SumSquares(xs));
    if Sum(xs) > 0 {
      BelowMultiple(Sum(xs), Sum(xs));
    }
  }

  /** A bound on the single counts that makes the divisor fit. */
  lemma SmallCountsFit(xs: seq<nat>, b: nat)
    requires forall i | 0 <= i < |xs| :: xs[i] <= b
    requires |xs| * b < 0x1_0000_0000
    ensures |xs| * SumSquares(xs) < WORD
  {
    SumsBounded(xs, b);
    SquareMonotone(|xs| * b, 0xFFFF_FFFF);
    ScaleMonotone(|xs|, SumSquares(xs), |xs| * (b * b));
    Regroup(|xs|, b);
  }

  // ---------------------------------------------------------------- the index

  /** The quotient of two words, as a double; nothing when the divisor is zero. */
  function Quotient(num: nat, den: nat): Option<real> {
    if den == 0 then None else Some(num as real / den as real)
  }

  /** What the program prints from the wrapped sums of `n` flows. */
  function PrintedIndex(n: nat, sum: nat, sumSquares: nat): Option<real> {
    Quotient(sum * sum % WORD, n * sumSquares % WORD)
  }

  /** Comparing a quotient with another one by cross-multiplication. */
  lemma CompareQuotients(a: nat, b: nat, c: nat, d: nat)
    requires b > 0 && d > 0
    ensures a as real / b as real <= c as real / d as real <==> a * d <= c * b
  {
    var f, g := a as real / b as real, c as real / d as real;
    assert f * b as real == a as real && g * d as real == c as real;
    var k := b as real * d as real;
    assert k > 0.0;
    assert f * k == (f * b as real) * d as real == (a * d) as real;
    assert g * k == (g * d as real) * b as real == (c * b) as real;
    ScaleOrder(f, g, k);
  }

  lemma ScaleOrder(x: real, y: real, k: real)
    requires k > 0.0
    ensures x <= y <==> x * k <= y * k
  {
    if x <= y {
      assert (y - x) * k >= 0.0;
    } else {
      assert (x - y) * k > 0.0;
    }
  }

  /** A quotient `num / (n * q)` against 1/n and against 1. */
  lemma QuotientBounds(num: nat, q: nat, n: nat)
    requires q > 0 && n > 0
    requires q <= num <= n * q
    ensures n * q > 0
    ensures var f := num as real / (n * q) as real;
            && 1.0 / n as real <= f <= 1.0
            && (f == 1.0 <==> num == n * q)
            && (f == 1.0 / n as real <==> num == q)
  {
    var den := n * q;
    assert den > 0;
    assert num * n == n * num;
    CompareQuotients(num, den, 1, 1);
    CompareQuotients(1, 1, num, den);
    CompareQuotients(num, den, 1, n);
    CompareQuotients(1, n, num, den);
    ScaleMonotone(n, q, num);
    ScaleInjective(n, q, num);
    assert 1 as real / 1 as real == 1.0;
  }

  lemma ScaleInjective(n: nat, a: nat, b: nat)
    requires n > 0 && a <= b
    ensures n * b <= n * a <==> a == b
  {
    if a < b {
      assert n * b == n * a + n * (b - a);
      assert n * (b - a) > 0;
    }
  }

  lemma SomethingReceived(xs: seq<nat>)
    requires exists i :: 0 <= i < |xs| && xs[i] != 0
    ensures SumSquares(xs) > 0
  {
    SumZero(xs);
    CauchySchwarz(xs);
    ProductZero(Sum(xs), Sum(xs));
    ProductZero(|xs|, SumSquares(xs));
  }

  /** Jain's index in exact arithmetic. */
  ghost function JainIndex(xs: seq<nat>): Option<real> {
    Quotient(Sum(xs) * Sum(xs), |xs| * SumSquares(xs))
  }

  /** For flows that are not all idle Jain's index lies between 1/n and 1; it is 1 exactly
      when all received the same, and 1/n exactly when one received everything. */
  lemma JainIndexMeaning(xs: seq<nat>)
    requires exists i :: 0 <= i < |xs| && xs[i] != 0
    ensures JainIndex(xs).Some?
    ensures 1.0 / |xs| as real <= JainIndex(xs).value <= 1.0
    ensures JainIndex(xs).value == 1.0 <==> AllEqual(xs)
    ensures JainIndex(xs).value == 1.0 / |xs| as real <==> OneTakesAll(xs)
  {
    SomethingReceived(xs);
    CauchySchwarz(xs);
    SquaresBelowSquare(xs);
    QuotientBounds(Sum(xs) * Sum(xs), SumSquares(xs), |xs|);
  }

  // ---------------------------------------------------------------- when the printed index is right

  /** What the program prints for the counts `xs`. */
  ghost function Printed(xs: seq<nat>): Option<real> {
    PrintedIndex(|xs|, Sum(xs) % WORD, SumSquares(xs) % WORD)
  }

  lemma SmallModulo(a: nat)
    requires a < WORD
    ensures a % WORD == a && a / WORD == 0
  {
  }

  lemma DropWords(a: nat, t: nat)
    ensures (WORD * t + a) % WORD == a % WORD
  {
  }

  /** Wrapping the factors first makes no difference to a wrapped product. */
  lemma WrapProduct(a: nat, b: nat)
    ensures a * (b % WORD) % WORD == a * b % WORD
  {
    var q, r := b / WORD, b % WORD;
    assert b == WORD * q + r;
    assert a * b == WORD * (a * q) + a * r;
    DropWords(a * r, a * q);
  }

  lemma PrintedProducts(xs: seq<nat>)
    ensures Printed(xs) == Quotient(Sum(xs) * Sum(xs) % WORD, |xs| * SumSquares(xs) % WORD)
  {
    var s := Sum(xs);
    WrapProduct(s % WORD, s);
    WrapProduct(s, s);
    assert (s % WORD) * s == s * (s % WORD);
    WrapProduct(|xs|, SumSquares(xs));
  }

  lemma SameQuotientIff(a: nat, b: nat, c: nat, d: nat)
    requires b > 0 && d > 0
    ensures Quotient(a, b) == Quotient(c, d) <==> a * d == c * b
  {
    CompareQuotients(a, b, c, d);
    CompareQuotients(c, d, a, b);
  }

  /** The remainders of two numbers have their ratio if and only if the quotients do. */
  lemma RemaindersInProportion(num: nat, den: nat)
    ensures (num % WORD) * den == num * (den % WORD) <==> (num / WORD) * (den % WORD) == (den / WORD) * (num % WORD)
  {
    var a, r, b, s := num / WORD, num % WORD, den / WORD, den % WORD;
    assert num == WORD * a + r && den == WORD * b + s;
    assert r * den == WORD * (b * r) + r * s;
    assert num * s == WORD * (a * s) + r * s;
  }

  lemma WrappedQuotientIff(num: nat, den: nat)
    ensures Quotient(num % WORD, den % WORD) == Quotient(num, den) <==>
            den == 0 || (den % WORD != 0 && (num / WORD) * (den % WORD) == (den / WORD) * (num % WORD))
  {
    if den > 0 && den % WORD != 0 {
      SameQuotientIff(num % WORD, den % WORD, num, den);
      RemaindersInProportion(num, den);
    }
  }

  /** Exactly when the program prints Jain's index: all flows are idle, or the wrapped
      divisor is not zero and what the wrap-around cuts off the two products is in the
      proportion of what it leaves. */
  lemma PrintedIsJainIff(xs: seq<nat>)
    ensures var num, den := Sum(xs) * Sum(xs), |xs| * SumSquares(xs);
            Printed(xs) == JainIndex(xs) <==>
            den == 0 || (den % WORD != 0 && (num / WORD) * (den % WORD) == (den / WORD) * (num % WORD))
  {
    PrintedProducts(xs);
    hide Printed, Quotient;
    WrappedQuotientIff(Sum(xs) * Sum(xs), |xs| * SumSquares(xs));
  }

  /** In particular while the divisor fits. */
  lemma PrintedIsJain(xs: seq<nat>)
    requires |xs| * SumSquares(xs) < WORD
    ensures Printed(xs) == JainIndex(xs)
  {
    CauchySchwarz(xs);
    SmallModulo(Sum(xs) * Sum(xs));
    SmallModulo(|xs| * SumSquares(xs));
    PrintedProducts(xs);
  }

  lemma {:induction false} EqualCounts(n: nat, c: nat)
    ensures Sum(seq(n, _ => c)) == n * c && SumSquares(seq(n, _ => c)) == n * (c * c)
  {
    if n > 0 {
      EqualCounts(n - 1, c);
      assert seq(n, _ => c)[..n - 1] == seq(n - 1, _ => c);
      Distribute(n - 1, 1, c);
      Distribute(n - 1, 1, c * c);
    }
  }

  lemma {:induction false} OneCount(c: nat, idle: nat)
    ensures var xs := [c] + seq(idle, _ => 0); Sum(xs) == c && SumSquares(xs) == c * c
  {
    var xs := [c] + seq(idle, _ => 0);
    if idle > 0 {
      OneCount(c, idle - 1);
      assert xs[..|xs| - 1] == [c] + seq(idle - 1, _ => 0);
    } else {
      assert xs[..0] == [];
    }
  }

  /** Ten equal counts of 2^32 bytes are as fair as can be, but nothing is left to divide by. */
  lemma EqualCountsWrap()
    ensures var xs := seq(10, _ => 0x1_0000_0000);
            AllEqual(xs) && Printed(xs) == None
  {
    var c := 0x1_0000_0000;
    var xs := seq(10, _ => c);
    EqualCounts(10, c);
    PrintedProducts(xs);
    assert |xs| * SumSquares(xs) == WORD * 100;
  }

  /** One flow that takes all of 1358187914 bytes wraps the divisor only: the printed index
      is not 1/10 but far beyond 1. */
  lemma OneCountLeavesRange()
    ensures var xs := [1358187914] + seq(9, _ => 0);
            Printed(xs).Some? && Printed(xs).value > 1000000.0 && JainIndex(xs) == Some(0.1)
  {
    var c, xs := 1358187914, [1358187914] + seq(9, _ => 0);
    OneCount(c, 9);
    PrintedProducts(xs);
    var num, rest := 1844674409735671396, 23647162344;
    assert c * c == num && 10 * num == WORD + rest;
    assert Printed(xs) == Quotient(num, rest);
    CompareQuotients(num, rest, 1000000, 1);
    assert JainIndex(xs) == Quotient(num, 10 * num);
    SameQuotientIff(num, 10 * num, 1, 10);
  }

  // ---------------------------------------------------------------- the program

  /** Wrapping at every step is wrapping once. */
  lemma WrapAdd(a: nat, b: nat)
    ensures (a % WORD + b) % WORD == (a + b) % WORD == (a % WORD + b % WORD) % WORD
  {
  }

  /** One group of flows: a loop of `PrintFairness`. */
  method PrintGroup(rx: array<nat>) returns (sum: nat, sumSquares: nat, fairness: Option<real>)
    ensures sum == Sum(rx[..]) % WORD && sumSquares == SumSquares(rx[..]) % WORD
    ensures fairness == PrintedIndex(rx.Length, sum, sumSquares)
  {
    sum, sumSquares := 0, 0;
    for i := 0 to rx.Length
      invariant sum == Sum(rx[..i]) % WORD && sumSquares == SumSquares(rx[..i]) % WORD
    {
      assert rx[..i + 1][..i] == rx[..i];
      WrapAdd(Sum(rx[..i]), rx[i]);
      WrapAdd(SumSquares(rx[..i]), rx[i] * rx[i]);
      sum := (sum + rx[i]) % WORD;
      sumSquares := (sumSquares + rx[i] * rx[i] % WORD) % WORD;
    }
    assert rx[..rx.Length] == rx[..];
    fairness := Quotient(sum * sum % WORD, rx.Length * sumSquares % WORD);
  }

  datatype Group = S1R1 | S2R2 | S3R1

  /** The number of flows of a group. */
  function Flows(g: Group): nat {
    if g == S2R2 then 20 else 10
  }

  /** A packet that reaches the sink of one flow. */
  datatype Packet = Packet(group: Group, index: nat, size: nat)

  /** The bytes that a flow received, in exact arithmetic. */
  ghost function Bytes(received: seq<Packet>, g: Group, index: nat): nat {
    if received == [] then 0 else
    var p := received[|received| - 1];
    Bytes(received[..|received| - 1], g, index) + if p.group == g && p.index == index then p.size else 0
  }

  /** The bytes of all flows of a group. */
  ghost function GroupBytes(received: seq<Packet>, g: Group): (xs: seq<nat>)
    ensures |xs| == Flows(g) && forall i | 0 <= i < Flows(g) :: xs[i] == Bytes(received, g, i)
  {
    seq(Flows(g), (i: nat) => Bytes(received, g, i))
  }

  lemma BytesSnoc(received: seq<Packet>, p: Packet, g: Group, index: nat)
    ensures Bytes(received + [p], g, index) ==
            Bytes(received, g, index) + if p.group == g && p.index == index then p.size else 0
  {
    assert (received + [p])[..|received|] == received;
  }

  ghost function TotalSize(received: seq<Packet>): nat {
    if received == [] then 0 else TotalSize(received[..|received| - 1]) + received[|received| - 1].size
  }

  lemma {:induction false} SumUpdate(xs: seq<nat>, i: nat, d: nat)
    requires i < |xs|
    ensures Sum(xs[i := xs[i] + d]) == Sum(xs) + d
  {
    var n := |xs| - 1;
    if i < n {
      SumUpdate(xs[..n], i, d);
      assert xs[i := xs[i] + d][..n] == xs[..n][i := xs[i] + d];
    } else {
      assert xs[i := xs[i] + d][..n] == xs[..n];
    }
  }

  lemma GroupBytesSnoc(received: seq<Packet>, p: Packet, g: Group)
    requires p.index < Flows(p.group)
    ensures Sum(GroupBytes(received + [p], g)) == Sum(GroupBytes(received, g)) + if p.group == g then p.size else 0
  {
    var xs := GroupBytes(received, g);
    forall i | 0 <= i < Flows(g)
      ensures GroupBytes(received + [p], g)[i] == xs[i] + if p.group == g && p.index == i then p.size else 0
    {
      BytesSnoc(received, p, g, i);
    }
    if p.group == g {
      SumUpdate(xs, p.index, p.size);
      assert GroupBytes(received + [p], g) == xs[p.index := xs[p.index] + p.size];
    } else {
      assert GroupBytes(received + [p], g) == xs;
    }
  }

  /** No byte is lost or counted twice: the flows of the three groups together received
      the sizes of all packets. */
  lemma {:induction false} BytesConserved(received: seq<Packet>)
    requires forall p | p in received :: p.index < Flows(p.group)
    ensures Sum(GroupBytes(received, S1R1)) + Sum(GroupBytes(received, S2R2)) + Sum(GroupBytes(received, S3R1))
            == TotalSize(received)
  {
    if received == [] {
      NothingReceived(S1R1);
      NothingReceived(S2R2);
      NothingReceived(S3R1);
    } else {
      var front, p := received[..|received| - 1], received[|received| - 1];
      assert received == front + [p];
      BytesConserved(front);
      GroupBytesSnoc(front, p, S1R1);
      GroupBytesSnoc(front, p, S2R2);
      GroupBytesSnoc(front, p, S3R1);
    }
  }

  lemma NothingReceived(g: Group)
    ensures Sum(GroupBytes([], g)) == 0
  {
    EqualCounts(Flows(g), 0);
    assert GroupBytes([], g) == seq(Flows(g), _ => 0);
  }

  /** Exact sums and sums of wrapped counts wrap to the same. */
  lemma {:induction false} WrappedSums(xs: seq<nat>, ws: seq<nat>)
    requires |xs| == |ws| && forall i | 0 <= i < |xs| :: ws[i] == xs[i] % WORD
    ensures Sum(ws) % WORD == Sum(xs) % WORD && SumSquares(ws) % WORD == SumSquares(xs) % WORD
  {
    if xs != [] {
      var n, x, w := |xs| - 1, xs[|xs| - 1], ws[|xs| - 1];
      WrappedSums(xs[..n], ws[..n]);
      WrapProduct(w, x);
      WrapProduct(x, x);
      assert w * x == x * w;
      WrapBoth(Sum(ws[..n]), w, Sum(xs[..n]), x);
      WrapBoth(SumSquares(ws[..n]), w * w, SumSquares(xs[..n]), x * x);
    }
  }

  lemma WrapBoth(a: nat, b: nat, c: nat, d: nat)
    requires a % WORD == c % WORD && b % WORD == d % WORD
    ensures (a + b) % WORD == (c + d) % WORD
  {
    WrapAdd(a, b);
    WrapAdd(c, d);
  }

  class Counters {
    const s1r1: array<nat>
    const s2r2: array<nat>
    const s3r1: array<nat>
    /** The packets since the counters were last set to zero. */
    ghost var received: seq<Packet>

    function Array(g: Group): array<nat> {
      match g
      case S1R1 => s1r1
      case S2R2 => s2r2
      case S3R1 => s3r1
    }

    /** The arrays have the sizes of their groups and are different objects. */
    ghost predicate Shaped() {
      && s1r1.Length == 10 && s2r2.Length == 20 && s3r1.Length == 10
      && s1r1 != s2r2 && s1r1 != s3r1 && s2r2 != s3r1
    }

    ghost predicate Counts(g: Group)
      requires Shaped()
      reads this, s1r1, s2r2, s3r1
    {
      forall i | 0 <= i < Flows(g) :: Array(g)[i] == Bytes(received, g, i) % WORD
    }

    /** Every counter holds the bytes of its flow modulo 2^64. */
    ghost predicate Valid()
      reads this, s1r1, s2r2, s3r1
    {
      Shaped() && Counts(S1R1) && Counts(S2R2) && Counts(S3R1)
    }

    constructor ()
      ensures Valid() && received == [] && fresh(s1r1) && fresh(s2r2) && fresh(s3r1)
    {
      s1r1, s2r2, s3r1 := new nat[10](_ => 0), new nat[20](_ => 0), new nat[10](_ => 0);
      received := [];
    }

    /** The trace sinks: one more packet, and the counters are still right. */
    method TraceSink(p: Packet)
      requires Valid() && p.index < Flows(p.group)
      modifies this`received, s1r1, s2r2, s3r1
      ensures Valid() && received == old(received) + [p]
    {
      var counter := Array(p.group);
      forall g: Group, i: nat
        ensures Bytes(received + [p], g, i) ==
                Bytes(received, g, i) + if p.group == g && p.index == i then p.size else 0
      {
        BytesSnoc(received, p, g, i);
      }
      WrapAdd(Bytes(received, p.group, p.index), p.size);
      counter[p.index] := (counter[p.index] + p.size) % WORD;
      received := received + [p];
    }

    method InitializeCounters()
      requires Shaped()
      modifies this`received, s1r1, s2r2, s3r1
      ensures Valid() && received == []
    {
      received := [];
      for i := 0 to 10
        invariant received == [] && forall j | 0 <= j < i :: s1r1[j] == 0
      {
        s1r1[i] := 0;
      }
      for i := 0 to 20
        invariant received == [] && Counts(S1R1) && forall j | 0 <= j < i :: s2r2[j] == 0
      {
        s2r2[i] := 0;
      }
      for i := 0 to 10
        invariant received == [] && Counts(S1R1) && Counts(S2R2) && forall j | 0 <= j < i :: s3r1[j] == 0
      {
        s3r1[i] := 0;
      }
    }

    /** One group of `PrintFairness`, about the bytes its flows really received. */
    method GroupFairness(g: Group) returns (fairness: Option<real>)
      requires Valid()
      ensures fairness == Printed(GroupBytes(received, g))
    {
      ghost var xs, ws := GroupBytes(received, g), Array(g)[..];
      var sum, sumSquares;
      sum, sumSquares, fairness := PrintGroup(Array(g));
      WrappedSums(xs, ws);
    }

    /** The three indices. Each is Jain's index of the bytes received since the counters
        were set to zero, provided that the divisor of that group fits. */
    method PrintFairness() returns (first: Option<real>, second: Option<real>, third: Option<real>)
      requires Valid()
      ensures first == Printed(GroupBytes(received, S1R1))
      ensures second == Printed(GroupBytes(received, S2R2))
      ensures third == Printed(GroupBytes(received, S3R1))
      ensures DivisorFits(received, S1R1) ==> first == JainIndex(GroupBytes(received, S1R1))
      ensures DivisorFits(received, S2R2) ==> second == JainIndex(GroupBytes(received, S2R2))
      ensures DivisorFits(received, S3R1) ==> third == JainIndex(GroupBytes(received, S3R1))
    {
      first := GroupFairness(S1R1);
      second := GroupFairness(S2R2);
      third := GroupFairness(S3R1);
      FittingGroup(received, S1R1);
      FittingGroup(received, S2R2);
      FittingGroup(received, S3R1);
    }
  }

  ghost predicate DivisorFits(received: seq<Packet>, g: Group) {
    Flows(g) * SumSquares(GroupBytes(received, g)) < WORD
  }

  lemma FittingGroup(received: seq<Packet>, g: Group)
    ensures DivisorFits(received, g) ==> Printed(GroupBytes(received, g)) == JainIndex(GroupBytes(received, g))
  {
    if DivisorFits(received, g) {
      PrintedIsJain(GroupBytes(received, g));
    }
  }

  /** A measurement: whatever the counters held before, after setting them to zero and any
      packets the three indices are those of exactly these packets. */
  method Measure(counters: Counters, packets: seq<Packet>)
    returns (first: Option<real>, second: Option<real>, third: Option<real>)
    requires counters.Shaped() && forall p | p in packets :: p.index < Flows(p.group)
    modifies counters, counters.s1r1, counters.s2r2, counters.s3r1
    ensures counters.Valid() && counters.received == packets
    ensures DivisorFits(packets, S1R1) ==> first == JainIndex(GroupBytes(packets, S1R1))
    ensures DivisorFits(packets, S2R2) ==> second == JainIndex(GroupBytes(packets, S2R2))
    ensures DivisorFits(packets, S3R1) ==> third == JainIndex(GroupBytes(packets, S3R1))
  {
    counters.InitializeCounters();
    for i := 0 to |packets|
      invariant counters.Valid() && counters.received == packets[..i]
    {
      assert packets[..i + 1] == packets[..i] + [packets[i]];
      counters.TraceSink(packets[i]);
    }
    assert packets[..|packets|] == packets;
    first, second, third := counters.PrintFairness();
  }
}
