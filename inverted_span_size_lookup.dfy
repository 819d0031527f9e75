/**
 * InvertedSpanSizeLookup: a grid span-size lookup where an item's width is
 * given as how many such items fill a row. The grid gets the least common
 * multiple of the possible row counts as its number of spans, and an item
 * that fills a row n at a time takes total / n of them.
 */
module SpanSizeLookups {
  import opened Wrappers
  import opened SparseArrays

  // ------------------------------------------------------------ divisibility

  /** `d` is a positive divisor of `n`. */
  predicate Divides(d: int, n: int) {
    d > 0 && n % d == 0
  }

  /** A nonnegative product of `d` below `d` has a zero factor. */
  lemma SmallMultiple(d: int, t: int)
    requires d > 0 && 0 <= d * t < d
    ensures t == 0
  {
    assert t >= 1 ==> d * t == d + d * (t - 1);
    assert t >= 1 ==> d * (t - 1) >= 0;
    assert t <= -1 ==> d * t == -d + d * (t + 1);
    assert t <= -1 ==> d * (t + 1) <= 0;
  }

  /** Dividing a multiple of `d` by `d` is exact. */
  lemma MultipleOf(d: int, k: int)
    requires d > 0
    ensures (d * k) % d == 0 && (d * k) / d == k
  {
    var q, r := (d * k) / d, (d * k) % d;
    assert d * k == d * q + r;
    assert d * (k - q) == r;
    SmallMultiple(d, k - q);
  }

  /** A divisor of two numbers divides every combination c * x + y of them. */
  lemma DividesLinear(d: int, x: int, y: int, c: int)
    requires Divides(d, x) && Divides(d, y)
    ensures Divides(d, c * x + y)
  {
    var kx, ky := x / d, y / d;
    assert x == d * kx && y == d * ky;
    assert c * x + y == d * (c * kx + ky) by {
      assert c * (d * kx) == d * (c * kx);
    }
    MultipleOf(d, c * kx + ky);
  }

  /** Divisibility is transitive. */
  lemma DividesTransitive(d: int, m: int, n: int)
    requires Divides(d, m) && Divides(m, n)
    ensures Divides(d, n)
  {
    var k1, k2 := m / d, n / m;
    assert m == d * k1 && n == m * k2;
    assert n == d * (k1 * k2) by {
      assert (d * k1) * k2 == d * (k1 * k2);
    }
    MultipleOf(d, k1 * k2);
  }

  // -------------------------------------------------------------------- gcd

  /** Euclid's greatest common divisor of two naturals. */
  function GcdOf(a: nat, b: nat): (g: nat)
    ensures a > 0 || b > 0 ==> g > 0
    decreases b
  {
    if b == 0 then a else GcdOf(b, a % b)
  }

  /** The gcd divides both arguments. */
  lemma {:induction false} GcdDivides(a: nat, b: nat)
    requires a > 0 || b > 0
    ensures Divides(GcdOf(a, b), a) && Divides(GcdOf(a, b), b)
    decreases b
  {
    if b == 0 {
      MultipleOf(a, 1);
    } else {
      GcdDivides(b, a % b);
      var g := GcdOf(a, b);
      assert a == (a / b) * b + a % b;
      DividesLinear(g, b, a % b, a / b);
    }
  }

  /** Every common divisor of the arguments divides their gcd. */
  lemma {:induction false} GcdGreatest(a: nat, b: nat, d: int)
    requires Divides(d, a) && Divides(d, b)
    ensures Divides(d, GcdOf(a, b))
    decreases b
  {
    if b != 0 {
      assert a % b == -(a / b) * b + a;
      DividesLinear(d, b, a, -(a / b));
      GcdGreatest(b, a % b, d);
    }
  }

  /** Java's `%` on int: the remainder truncated toward zero, with the sign of `x`. */
  function JavaRem(x: int, y: int): (r: int)
    requires y > 0
    ensures -y < r < y
    ensures x >= 0 ==> r == x % y
    ensures x < 0 ==> r <= 0
  {
    if x >= 0 then x % y else -((-x) % y)
  }

  /**
   * gcd(a, b): the loop that replaces (a, b) by (b, a % b) while b > 0.
   * On naturals it computes Euclid's gcd; a nonpositive b is returned
   * through as a.
   */
  method Gcd(a: int, b: int) returns (g: int)
    ensures a >= 0 && b >= 0 ==> g == GcdOf(a, b)
    ensures b <= 0 ==> g == a
  {
    var x, y := a, b;
    while y > 0
      invariant a >= 0 && b >= 0 ==> x >= 0 && y >= 0 && GcdOf(x, y) == GcdOf(a, b)
      invariant b <= 0 ==> x == a && y == b
      decreases y
    {
      var temp := y;
      y := JavaRem(x, y);
      x := temp;
    }
    g := x;
  }

  // -------------------------------------------------------------------- lcm

  /** a * (b / gcd(a, b)): a common multiple of two positive numbers. */
  function LcmOf(a: int, b: int): (r: int)
    requires a > 0 && b > 0
    ensures r > 0 && Divides(a, r) && Divides(b, r)
  {
    var g := GcdOf(a, b);
    GcdDivides(a, b);
    var m, n := b / g, a / g;
    assert b == g * m && a == g * n;
    assert m > 0 by {
      assert g * m > 0;
    }
    MultipleOf(a, m);
    assert a * m == b * n by {
      assert (g * n) * m == (g * m) * n;
    }
    MultipleOf(b, n);
    a * m
  }

  /** lcm(a, b) on positive numbers: the gcd computed by the loop, then the product. */
  method Lcm(a: int, b: int) returns (r: int)
    requires a > 0 && b > 0
    ensures r == LcmOf(a, b)
    ensures Divides(a, r) && Divides(b, r)
  {
    var g := Gcd(a, b);
    r := a * (b / g);
  }

  // ------------------------------------------------------------------ folds

  /** Every entry of `input` is positive. */
  predicate AllPositive(input: seq<int>) {
    forall j :: 0 <= j < |input| ==> input[j] > 0
  }

  /** The left fold of lcm over input[..n]. */
  function LcmFold(input: seq<int>, n: nat): (r: int)
    requires AllPositive(input) && 1 <= n <= |input|
    ensures r > 0
  {
    if n == 1 then input[0] else LcmOf(LcmFold(input, n - 1), input[n - 1])
  }

  /** Each of input[..n] divides the lcm fold over it. */
  lemma {:induction false} LcmFoldDivides(input: seq<int>, n: nat)
    requires AllPositive(input) && 1 <= n <= |input|
    ensures forall j :: 0 <= j < n ==> Divides(input[j], LcmFold(input, n))
  {
    if n == 1 {
      MultipleOf(input[0], 1);
    } else {
      LcmFoldDivides(input, n - 1);
      var previous := LcmFold(input, n - 1);
      forall j | 0 <= j < n - 1
        ensures Divides(input[j], LcmFold(input, n))
      {
        DividesTransitive(input[j], previous, LcmFold(input, n));
      }
    }
  }

  /** lcm(int[]): folds lcm over the input from its first element. */
  method LcmAll(input: seq<int>) returns (result: int)
    requires |input| > 0 && AllPositive(input)
    ensures result == LcmFold(input, |input|)
    ensures result > 0 && forall j :: 0 <= j < |input| ==> Divides(input[j], result)
  {
    result := input[0];
    for i := 1 to |input|
      invariant result == LcmFold(input, i)
    {
      result := Lcm(result, input[i]);
    }
    LcmFoldDivides(input, |input|);
  }

  /** The left fold of gcd over input[..n]. */
  function GcdFold(input: seq<int>, n: nat): (r: int)
    requires AllPositive(input) && 1 <= n <= |input|
    ensures r > 0
  {
    if n == 1 then input[0] else GcdOf(GcdFold(input, n - 1), input[n - 1])
  }

  /** The gcd fold divides each of input[..n], and every common divisor of them divides it. */
  lemma {:induction false} GcdFoldCommon(input: seq<int>, n: nat, d: int)
    requires AllPositive(input) && 1 <= n <= |input|
    ensures forall j :: 0 <= j < n ==> Divides(GcdFold(input, n), input[j])
    ensures (forall j :: 0 <= j < n ==> Divides(d, input[j])) ==> Divides(d, GcdFold(input, n))
  {
    if n == 1 {
      MultipleOf(input[0], 1);
    } else {
      GcdFoldCommon(input, n - 1, d);
      var previous, last := GcdFold(input, n - 1), input[n - 1];
      GcdDivides(previous, last);
      forall j | 0 <= j < n - 1
        ensures Divides(GcdFold(input, n), input[j])
      {
        DividesTransitive(GcdFold(input, n), previous, input[j]);
      }
      if forall j :: 0 <= j < n ==> Divides(d, input[j]) {
        GcdGreatest(previous, last, d);
      }
    }
  }

  /** gcd(int[]): folds gcd over the input from its first element. */
  method GcdAll(input: seq<int>) returns (result: int)
    requires |input| > 0 && AllPositive(input)
    ensures result == GcdFold(input, |input|)
    ensures result > 0 && forall j :: 0 <= j < |input| ==> Divides(result, input[j])
  {
    result := input[0];
    for i := 1 to |input|
      invariant result == GcdFold(input, i)
    {
      result := Gcd(result, input[i]);
    }
    GcdFoldCommon(input, |input|, 1);
  }

  /** The numbers of spans (the fold) in two configurations. */
  lemma RequiredSpansExamples()
    ensures LcmFold([1, 5, 8], 3) == 40
    ensures LcmFold([1, 5, 10], 3) == 10
  {
    assert LcmFold([1, 5, 8], 2) == 5;
    assert LcmFold([1, 5, 10], 2) == 5;
  }

  // ----------------------------------------------------------------- lookup

  /** The constructor's loop: every row count n is put with total / n spans. */
  method SpanTable(rows: seq<int>, total: int) returns (spans: SparseArray<int>)
    requires AllPositive(rows)
    ensures spans.Valid()
    ensures forall k :: spans.Find(k) == if k in rows then Some(total / k) else None
  {
    spans := Empty<int>();
    for j := 0 to |rows|
      invariant spans.Valid()
      invariant forall k :: spans.Find(k) == if k in rows[..j] then Some(total / k) else None
    {
      var n := rows[j];
      forall k ensures spans.Put(n, total / n).Find(k) == if k == n then Some(total / n) else spans.Find(k) {
        PutFind(spans, n, total / n, k);
      }
      assert rows[..j + 1] == rows[..j] + [n];
      spans := spans.Put(n, total / n);
    }
    assert rows[..|rows|] == rows;
  }

  class InvertedSpanSizeLookup {
    /** The row counts given to the constructor. */
    const possibleItemsPerRow: seq<int>
    /** getItemsPerRow, left abstract in the source. */
    const itemsPerRow: int -> int
    const total: int
    /** Row count n to the spans an item of that width takes. */
    const table: SparseArray<int>

    ghost predicate Valid() {
      |possibleItemsPerRow| > 0 && AllPositive(possibleItemsPerRow) &&
      total == LcmFold(possibleItemsPerRow, |possibleItemsPerRow|) &&
      table.Valid() &&
      forall k :: table.Find(k) == if k in possibleItemsPerRow then Some(total / k) else None
    }

    /** The total is the lcm of the row counts, and each row count n maps to total / n. */
    constructor (possibleItemsPerRow: seq<int>, itemsPerRow: int -> int)
      requires |possibleItemsPerRow| > 0 && AllPositive(possibleItemsPerRow)
      ensures Valid()
      ensures this.possibleItemsPerRow == possibleItemsPerRow && this.itemsPerRow == itemsPerRow
    {
      var t := LcmAll(possibleItemsPerRow);
      var spans := SpanTable(possibleItemsPerRow, t);
      this.possibleItemsPerRow := possibleItemsPerRow;
      this.itemsPerRow := itemsPerRow;
      total := t;
      table := spans;
    }

    /**
     * getSpanSize: an item whose row holds n items takes total / n spans,
     * so n of them fill the row exactly; a row count not given takes 0.
     */
    function GetSpanSize(position: int): (s: int)
      requires Valid()
      ensures itemsPerRow(position) in possibleItemsPerRow ==>
        s == total / itemsPerRow(position) && itemsPerRow(position) * s == total
      ensures itemsPerRow(position) !in possibleItemsPerRow ==> s == 0
    {
      LcmFoldDivides(possibleItemsPerRow, |possibleItemsPerRow|);
      table.Get(itemsPerRow(position), 0)
    }

    /** getRequiredSpans: a positive number of spans that every row count divides. */
    function GetRequiredSpans(): (r: int)
      requires Valid()
      ensures r > 0 && r == LcmFold(possibleItemsPerRow, |possibleItemsPerRow|)
      ensures forall j :: 0 <= j < |possibleItemsPerRow| ==> Divides(possibleItemsPerRow[j], r)
    {
      LcmFoldDivides(possibleItemsPerRow, |possibleItemsPerRow|);
      total
    }
  }
}
