/**
 * The indicators the right-hand panel derives from the session table: the
 * total invested, the number of instruments and the share of the total held
 * by the three largest positions. Arithmetic is on mathematical reals; the
 * display formatting is not modelled.
 */
module Metrics {
  import opened Wrappers
  import opened Portfolio

  /** The three indicators; `topThree` is `None` where the panel shows "N/A". */
  datatype Summary = Summary(total: real, count: nat, topThree: Option<real>)

  /** The amount of one row as a sequence: empty where the cell holds no number. */
  function AmountOf(row: Row): seq<real> {
    if row.amount.Some? then [row.amount.value] else []
  }

  /**
   * The numeric amounts of `rows`, in row order. Cells without a number are
   * skipped, as pandas' `sum` skips NaN.
   */
  function Amounts(rows: seq<Row>): (xs: seq<real>)
    ensures |xs| <= |rows|
  {
    if rows == [] then [] else AmountOf(rows[0]) + Amounts(rows[1..])
  }

  /** No row holds a negative number. */
  predicate NoNegative(rows: seq<Row>) {
    forall i :: 0 <= i < |rows| && rows[i].amount.Some? ==> rows[i].amount.value >= 0.0
  }

  function Sum(xs: seq<real>): real {
    if xs == [] then 0.0 else xs[0] + Sum(xs[1..])
  }

  /** `df['amount_ARS'].sum()`: never negative when no amount is. */
  function Total(rows: seq<Row>): (t: real)
    ensures NoNegative(rows) ==> t >= 0.0
  {
    AmountsSumNonNegative(rows);
    Sum(Amounts(rows))
  }

  /** `len(df)`: every row is an instrument, whatever its amount, so numeric or not. */
  function Count(rows: seq<Row>): (c: nat)
    ensures |Amounts(rows)| <= c
  {
    |rows|
  }

  predicate Descending(s: seq<real>) {
    forall i, j :: 0 <= i < j < |s| ==> s[i] >= s[j]
  }

  /** Places `x` in the descending sequence `s`. */
  function Insert(x: real, s: seq<real>): (r: seq<real>)
    requires Descending(s)
    ensures |r| == |s| + 1
    ensures Descending(r)
    ensures multiset(r) == multiset(s) + multiset{x}
    ensures Sum(r) == x + Sum(s)
  {
    if s == [] || s[0] <= x then [x] + s
    else
      var rest := Insert(x, s[1..]);
      InsertBehind(x, s, rest);
      [s[0]] + rest
  }

  /** Putting the head of `s` in front of `x` inserted into the tail of `s`. */
  lemma InsertBehind(x: real, s: seq<real>, rest: seq<real>)
    requires Descending(s) && s != [] && s[0] > x
    requires |rest| == |s| && Descending(rest)
    requires multiset(rest) == multiset(s[1..]) + multiset{x}
    requires Sum(rest) == x + Sum(s[1..])
    ensures Descending([s[0]] + rest)
    ensures multiset([s[0]] + rest) == multiset(s) + multiset{x}
    ensures Sum([s[0]] + rest) == x + Sum(s)
  {
    assert s == [s[0]] + s[1..];
    forall j | 0 <= j < |rest| ensures s[0] >= rest[j] {
      assert rest[j] in multiset(rest);
      if rest[j] != x {
        assert rest[j] in multiset(s[1..]);
        var k :| 0 <= k < |s[1..]| && s[1..][k] == rest[j];
        assert s[k + 1] == rest[j];
      }
    }
    var r := [s[0]] + rest;
    assert r[1..] == rest;
  }

  /** `sort_values(ascending=False)` on the amounts: the same values, largest first. */
  function SortDescending(xs: seq<real>): (s: seq<real>)
    ensures |s| == |xs|
    ensures Descending(s)
    ensures multiset(s) == multiset(xs)
    ensures Sum(s) == Sum(xs)
  {
    if xs == [] then []
    else
      assert xs == [xs[0]] + xs[1..];
      Insert(xs[0], SortDescending(xs[1..]))
  }

  /** How many amounts `head(3)` takes from `n` numeric ones. */
  function TopCount(n: nat): nat {
    if n < 3 then n else 3
  }

  /** The three largest amounts (all of them when there are fewer), largest first. */
  function TopThree(xs: seq<real>): (t: seq<real>)
    ensures |t| == TopCount(|xs|)
  {
    SortDescending(xs)[..TopCount(|xs|)]
  }

  /**
   * `sort_values('amount_ARS', ascending=False).head(3)['amount_ARS'].sum()`:
   * the total less what the amounts not picked hold.
   */
  function TopThreeSum(rows: seq<Row>): (s: real)
    ensures s == Total(rows) - Sum(Others(Amounts(rows)))
  {
    SumSplit(Amounts(rows));
    Sum(TopThree(Amounts(rows)))
  }

  /**
   * Top-3 concentration: "N/A" for an empty table; otherwise the three largest
   * amounts as a percentage of the total, or 0 when the total is not positive.
   */
  function Concentration(rows: seq<Row>): (c: Option<real>)
    ensures c.None? <==> rows == []
    ensures rows != [] && Total(rows) <= 0.0 ==> c == Some(0.0)
  {
    if |rows| == 0 then None
    else if Total(rows) > 0.0 then Some(TopThreeSum(rows) / Total(rows) * 100.0)
    else Some(0.0)
  }

  /** The three metrics of the panel, in display order. */
  function Kpis(rows: seq<Row>): (k: Summary)
    ensures k.count == |rows|
  {
    Summary(Total(rows), Count(rows), Concentration(rows))
  }

  // ---------- Sums ----------

  lemma {:induction false} SumAppend(a: seq<real>, b: seq<real>)
    ensures Sum(a + b) == Sum(a) + Sum(b)
  {
    if a == [] {
      assert a + b == b;
    } else {
      assert (a + b)[0] == a[0];
      assert (a + b)[1..] == a[1..] + b;
      SumAppend(a[1..], b);
    }
  }

  /** `c` copies of `m` added up. */
  function Times(c: nat, m: real): real {
    if c == 0 then 0.0 else m + Times(c - 1, m)
  }

  lemma {:induction false} TimesIsProduct(c: nat, m: real)
    ensures Times(c, m) == c as real * m
  {
    if c > 0 {
      TimesIsProduct(c - 1, m);
    }
  }

  lemma {:induction false} SumAtLeast(xs: seq<real>, m: real)
    requires forall i :: 0 <= i < |xs| ==> xs[i] >= m
    ensures Sum(xs) >= Times(|xs|, m)
  {
    if xs != [] {
      SumAtLeast(xs[1..], m);
    }
  }

  lemma {:induction false} SumAtMost(xs: seq<real>, m: real)
    requires forall i :: 0 <= i < |xs| ==> xs[i] <= m
    ensures Sum(xs) <= Times(|xs|, m)
  {
    if xs != [] {
      SumAtMost(xs[1..], m);
    }
  }

  lemma {:induction false} SumNonNegative(xs: seq<real>)
    requires forall x :: x in xs ==> x >= 0.0
    ensures Sum(xs) >= 0.0
  {
    if xs != [] {
      assert xs[0] in xs;
      assert forall x :: x in xs[1..] ==> x in xs;
      SumNonNegative(xs[1..]);
    }
  }

  lemma {:induction false} AmountsAppend(a: seq<Row>, b: seq<Row>)
    ensures Amounts(a + b) == Amounts(a) + Amounts(b)
  {
    if a == [] {
      assert a + b == b;
    } else {
      assert (a + b)[0] == a[0];
      assert (a + b)[1..] == a[1..] + b;
      AmountsAppend(a[1..], b);
      assert Amounts(a + b) == AmountOf(a[0]) + (Amounts(a[1..]) + Amounts(b));
    }
  }

  /** With a number in every row, the amounts are exactly the rows' amounts, in row order. */
  lemma {:induction false} AmountsOfNumeric(rows: seq<Row>)
    requires Numeric(rows)
    ensures |Amounts(rows)| == |rows|
    ensures forall i :: 0 <= i < |rows| ==> Amounts(rows)[i] == rows[i].amount.value
  {
    if rows != [] {
      var rest := rows[1..];
      assert forall i :: 0 <= i < |rest| ==> rest[i] == rows[i + 1];
      AmountsOfNumeric(rest);
      assert Amounts(rows) == [rows[0].amount.value] + Amounts(rest);
    }
  }

  /**
   * The positions of `rows` whose cell holds a number, in increasing order:
   * exactly those positions.
   */
  function NumericPositions(rows: seq<Row>): (p: seq<nat>)
    ensures forall k :: 0 <= k < |p| ==> p[k] < |rows|
    ensures forall k, l :: 0 <= k < l < |p| ==> p[k] < p[l]
    ensures forall i :: 0 <= i < |rows| ==> (i in p <==> rows[i].amount.Some?)
  {
    if rows == [] then []
    else
      var n := |rows| - 1;
      var p := NumericPositions(rows[..n]);
      assert forall i :: 0 <= i < n ==> rows[..n][i] == rows[i];
      p + (if rows[n].amount.Some? then [n] else [])
  }

  /**
   * The amounts are the numbers at NumericPositions, in that order: one per
   * numeric cell, in row order, and nothing else.
   */
  lemma {:induction false} AmountsAtNumericPositions(rows: seq<Row>)
    ensures |Amounts(rows)| == |NumericPositions(rows)|
    ensures forall k :: 0 <= k < |Amounts(rows)| ==>
      rows[NumericPositions(rows)[k]].amount == Some(Amounts(rows)[k])
  {
    if rows != [] {
      var n := |rows| - 1;
      var front := rows[..n];
      AmountsAtNumericPositions(front);
      assert rows == front + [rows[n]];
      AmountsSnoc(front, rows[n]);
      assert NumericPositions(rows) ==
        NumericPositions(front) + (if rows[n].amount.Some? then [|front|] else []);
      NumericStep(front, rows[n], Amounts(front), NumericPositions(front));
    }
  }

  lemma AmountsSnoc(front: seq<Row>, row: Row)
    ensures Amounts(front + [row]) == Amounts(front) + AmountOf(row)
  {
    AmountsAppend(front, [row]);
    assert [row][1..] == [];
  }

  /** One more row extends the amounts and the numeric positions together. */
  lemma NumericStep(front: seq<Row>, row: Row, af: seq<real>, pf: seq<nat>)
    requires |af| == |pf|
    requires forall k :: 0 <= k < |pf| ==> pf[k] < |front|
    requires forall k :: 0 <= k < |af| ==> front[pf[k]].amount == Some(af[k])
    ensures var p := pf + (if row.amount.Some? then [|front|] else []);
      |af + AmountOf(row)| == |p| &&
      forall k :: 0 <= k < |p| ==> (front + [row])[p[k]].amount == Some((af + AmountOf(row))[k])
  {
    var p := pf + (if row.amount.Some? then [|front|] else []);
    forall k | 0 <= k < |p| ensures (front + [row])[p[k]].amount == Some((af + AmountOf(row))[k]) {
      if k < |pf| {
        assert (front + [row])[pf[k]] == front[pf[k]];
      }
    }
  }

  /** A value is among the amounts exactly when some cell holds it. */
  lemma AmountsMembers(rows: seq<Row>)
    ensures forall x :: x in Amounts(rows) <==> exists i :: 0 <= i < |rows| && rows[i].amount == Some(x)
  {
    AmountsAtNumericPositions(rows);
    var xs, p := Amounts(rows), NumericPositions(rows);
    forall x | x in xs ensures exists i :: 0 <= i < |rows| && rows[i].amount == Some(x) {
      var k :| 0 <= k < |xs| && xs[k] == x;
      assert rows[p[k]].amount == Some(x);
    }
    forall x | exists i :: 0 <= i < |rows| && rows[i].amount == Some(x) ensures x in xs {
      var i :| 0 <= i < |rows| && rows[i].amount == Some(x);
      assert i in p;
      var k :| 0 <= k < |p| && p[k] == i;
      assert xs[k] == x;
    }
  }

  /** With no negative number in the rows, the amounts sum to at least 0. */
  lemma AmountsSumNonNegative(rows: seq<Row>)
    ensures NoNegative(rows) ==> Sum(Amounts(rows)) >= 0.0
  {
    if NoNegative(rows) {
      AmountsNonNegative(rows);
      SumNonNegative(Amounts(rows));
    }
  }

  /** With no negative number in the rows, no amount is negative. */
  lemma {:induction false} AmountsNonNegative(rows: seq<Row>)
    requires NoNegative(rows)
    ensures forall x :: x in Amounts(rows) ==> x >= 0.0
  {
    if rows != [] {
      var rest := rows[1..];
      assert forall i :: 0 <= i < |rest| ==> rest[i] == rows[i + 1];
      AmountsNonNegative(rest);
      assert Amounts(rows) == AmountOf(rows[0]) + Amounts(rest);
    }
  }

  /** Every cell counted as its coerced value: a number as itself, NaN as 0. */
  function CoercedSum(rows: seq<Row>): real {
    if rows == [] then 0.0 else Coerce(rows[0].amount) + CoercedSum(rows[1..])
  }

  /** The total skips NaN, which is the same as counting it as 0. */
  lemma {:induction false} TotalIsCoercedSum(rows: seq<Row>)
    ensures Total(rows) == CoercedSum(rows)
  {
    if rows != [] {
      TotalIsCoercedSum(rows[1..]);
      SumAppend(AmountOf(rows[0]), Amounts(rows[1..]));
      if rows[0].amount.Some? {
        assert Sum(AmountOf(rows[0])) == rows[0].amount.value + Sum([]);
      }
    }
  }

  lemma {:induction false} CoercedSumPointwise(a: seq<Row>, b: seq<Row>)
    requires |a| == |b|
    requires forall i :: 0 <= i < |a| ==> Coerce(a[i].amount) == Coerce(b[i].amount)
    ensures CoercedSum(a) == CoercedSum(b)
  {
    if a != [] {
      assert forall i :: 0 <= i < |a| - 1 ==> a[1..][i] == a[i + 1] && b[1..][i] == b[i + 1];
      CoercedSumPointwise(a[1..], b[1..]);
    }
  }

  /** The total of two tables put end to end is the sum of their totals. */
  lemma TotalAppend(a: seq<Row>, b: seq<Row>)
    ensures Total(a + b) == Total(a) + Total(b)
  {
    AmountsAppend(a, b);
    SumAppend(Amounts(a), Amounts(b));
  }

  // ---------- Top three ----------

  /** The amounts TopThree leaves out. */
  function Others(xs: seq<real>): (o: seq<real>)
    ensures |o| == |xs| - TopCount(|xs|)
  {
    SortDescending(xs)[TopCount(|xs|)..]
  }

  /**
   * TopThree picks the largest amounts: the amounts split into the ones picked
   * (as many as `head(3)` takes) and the others, and every amount picked is at
   * least every amount left out.
   */
  lemma TopThreeAreLargest(xs: seq<real>)
    ensures multiset(TopThree(xs)) + multiset(Others(xs)) == multiset(xs)
    ensures forall i, j :: 0 <= i < |TopThree(xs)| && 0 <= j < |Others(xs)| ==> TopThree(xs)[i] >= Others(xs)[j]
  {
    var s := SortDescending(xs);
    TopThreeSplits(xs);
    assert multiset(s) == multiset(TopThree(xs)) + multiset(Others(xs));
    PrefixDominates(s, TopCount(|xs|));
  }

  lemma TopThreeSplits(xs: seq<real>)
    ensures SortDescending(xs) == TopThree(xs) + Others(xs)
  {
  }

  /** In a descending sequence every value before position `k` is at least every value from `k` on. */
  lemma PrefixDominates(s: seq<real>, k: nat)
    requires Descending(s) && k <= |s|
    ensures forall i, j :: 0 <= i < k && 0 <= j < |s| - k ==> s[..k][i] >= s[k..][j]
  {
    forall i, j | 0 <= i < k && 0 <= j < |s| - k ensures s[..k][i] >= s[k..][j] {
      assert s[..k][i] == s[i] && s[k..][j] == s[k + j];
    }
  }

  /** With three amounts or fewer, the top three hold the whole total. */
  lemma TopThreeSumOfFew(rows: seq<Row>)
    requires |Amounts(rows)| <= 3
    ensures TopThreeSum(rows) == Total(rows)
  {
    var xs := Amounts(rows);
    var s := SortDescending(xs);
    assert TopThree(xs) == s[..|s|] == s;
  }

  /** The amounts' sum is what the top three hold plus what the others hold. */
  lemma SumSplit(xs: seq<real>)
    ensures Sum(xs) == Sum(TopThree(xs)) + Sum(Others(xs))
  {
    var s := SortDescending(xs);
    assert s == TopThree(xs) + Others(xs);
    SumAppend(TopThree(xs), Others(xs));
  }

  /** With no negative amount, the top three hold between nothing and the whole total. */
  lemma TopThreeSumBounded(rows: seq<Row>)
    requires NoNegative(rows)
    ensures 0.0 <= TopThreeSum(rows) <= Total(rows)
  {
    var xs := Amounts(rows);
    var s := SortDescending(xs);
    AmountsNonNegative(rows);
    assert forall x :: x in s ==> x >= 0.0 by {
      forall x | x in s ensures x >= 0.0 {
        assert x in multiset(s);
        assert x in multiset(xs);
        assert x in xs;
      }
    }
    assert forall x :: x in TopThree(xs) ==> x in s;
    assert forall x :: x in Others(xs) ==> x in s;
    SumNonNegative(TopThree(xs));
    SumNonNegative(Others(xs));
    SumSplit(xs);
  }

  /**
   * With no negative amount and a positive total, the concentration is a
   * percentage between 0 and 100.
   */
  lemma ConcentrationInRange(rows: seq<Row>)
    requires NoNegative(rows)
    requires Total(rows) > 0.0
    ensures Concentration(rows).Some?
    ensures 0.0 <= Concentration(rows).value <= 100.0
  {
    TopThreeSumBounded(rows);
    assert rows != [];
    PercentOfWhole(TopThreeSum(rows), Total(rows));
  }

  lemma PercentOfWhole(p: real, t: real)
    requires 0.0 <= p <= t && t > 0.0
    ensures 0.0 <= p / t * 100.0 <= 100.0
  {
    DivideBelow(1.0, p, t);
  }

  /** With three amounts or fewer and a positive total, the concentration is 100%. */
  lemma ConcentrationOfFew(rows: seq<Row>)
    requires |Amounts(rows)| <= 3 && Total(rows) > 0.0
    ensures Concentration(rows) == Some(100.0)
  {
    TopThreeSumOfFew(rows);
    assert rows != [];
    DivideSelf(Total(rows));
  }

  /**
   * In a descending sequence the first `k` values average at least as much as
   * all of them.
   */
  lemma PrefixAverage(s: seq<real>, k: nat)
    requires Descending(s) && k <= |s|
    ensures Times(|s|, Sum(s[..k])) >= Times(k, Sum(s))
  {
    var n := |s|;
    if 0 < k < n {
      var m := s[k - 1];
      var pre, post := s[..k], s[k..];
      assert s == pre + post;
      SumAppend(pre, post);
      forall i | 0 <= i < |pre| ensures pre[i] >= m { assert pre[i] == s[i]; }
      forall j | 0 <= j < |post| ensures post[j] <= m { assert post[j] == s[k + j]; }
      SumAtLeast(pre, m);
      SumAtMost(post, m);
      AverageStep(n, k, n - k, Sum(pre), Sum(post), Sum(s), m);
    } else if k == n {
      assert s[..k] == s;
    } else {
      assert s[..k] == [];
      assert Times(n, 0.0) == 0.0 by { TimesIsProduct(n, 0.0); }
    }
  }

  /**
   * The arithmetic of PrefixAverage: `p` is at least `k` copies of `m` and `r`
   * at most `j` copies, so `p` is at least a `k / n` share of `p + r`.
   */
  lemma AverageStep(n: nat, k: nat, j: nat, p: real, r: real, t: real, m: real)
    requires n == k + j && t == p + r && p >= Times(k, m) && r <= Times(j, m)
    ensures Times(n, p) >= Times(k, t)
  {
    TimesIsProduct(k, m);
    TimesIsProduct(j, m);
    TimesIsProduct(n, p);
    TimesIsProduct(k, t);
    ProductStep(n as real, k as real, j as real, p, r, t, m);
  }

  lemma ProductStep(n: real, k: real, j: real, p: real, r: real, t: real, m: real)
    requires k >= 0.0 && j >= 0.0 && n == k + j && t == p + r && p >= k * m && r <= j * m
    ensures n * p >= k * t
  {
    MulMonotone(j, p, k * m);
    MulMonotone(k, j * m, r);
    assert j * (k * m) == k * (j * m);
    assert n * p == k * p + j * p;
    assert k * t == k * p + k * r;
  }

  lemma MulMonotone(a: real, b: real, c: real)
    requires a >= 0.0 && b >= c
    ensures a * b >= a * c
  {
  }

  /**
   * The least concentration `n` numeric amounts can have: `100 * min(3, n) / n`
   * percent, reached when all amounts are equal.
   */
  function FloorPercent(n: nat): real {
    if n == 0 then 0.0 else 100.0 * TopCount(n) as real / n as real
  }

  /**
   * With a positive total, the three largest of `n` amounts hold at least
   * their share `min(3, n) / n` of it: the concentration is at least
   * FloorPercent(n).
   */
  lemma ConcentrationFloor(rows: seq<Row>)
    requires Total(rows) > 0.0
    ensures Concentration(rows).Some?
    ensures Concentration(rows).value >= FloorPercent(|Amounts(rows)|)
  {
    var xs := Amounts(rows);
    assert rows != [] && xs != [];
    PrefixAverage(SortDescending(xs), TopCount(|xs|));
    PercentStep(|xs|, TopCount(|xs|), TopThreeSum(rows), Total(rows), Concentration(rows).value);
  }

  /** The arithmetic of ConcentrationFloor: from `n * p >= k * t` to the percentage. */
  lemma PercentStep(n: nat, k: nat, p: real, t: real, c: real)
    requires n > 0 && k == TopCount(n) && t > 0.0 && Times(n, p) >= Times(k, t) && c == p / t * 100.0
    ensures c >= FloorPercent(n)
  {
    TimesIsProduct(n, p);
    TimesIsProduct(k, t);
    PercentArith(n as real, k as real, p, t, c);
    assert FloorPercent(n) == 100.0 * k as real / n as real;
    DivideBelow(c, 100.0 * k as real, n as real);
  }

  lemma PercentArith(n: real, k: real, p: real, t: real, c: real)
    requires t > 0.0 && n * p >= k * t && c == p / t * 100.0
    ensures c * n >= 100.0 * k
  {
    var q := p / t;
    assert (n * q) * t == n * p;
    DivideOut(n * q, k, t);
  }

  lemma DivideBelow(c: real, a: real, n: real)
    requires n > 0.0 && c * n >= a
    ensures c >= a / n
  {
    assert (a / n) * n == a;
    DivideOut(c, a / n, n);
  }

  lemma DivideSelf(t: real)
    requires t != 0.0
    ensures t / t == 1.0
  {
  }

  lemma DivideOut(a: real, b: real, t: real)
    requires t > 0.0 && a * t >= b * t
    ensures a >= b
  {
    if a < b {
      MulMonotone(t, b, a);
    }
  }

  /** A table of one row totals its amount, or 0 when it holds no number. */
  lemma TotalOfOne(row: Row)
    ensures Total([row]) == Coerce(row.amount)
  {
    assert [row][1..] == [];
    if row.amount.Some? {
      var x := row.amount.value;
      assert Amounts([row]) == [x];
      assert [x][1..] == [];
      assert Sum([x]) == x + Sum([]);
    }
  }

  // ---------- Indicators across edits ----------

  /** An accepted add raises the total by the amount added and the count by one. */
  lemma AddRaisesTotal(edited: seq<Row>, ticker: string, amount: real)
    requires AddTicker(edited, ticker, amount).Accepted?
    ensures Total(AddTicker(edited, ticker, amount).rows) == Total(edited) + amount
    ensures Count(AddTicker(edited, ticker, amount).rows) == Count(edited) + 1
  {
    var rows := AddTicker(edited, ticker, amount).rows;
    var row := rows[|edited|];
    assert rows == edited + [row];
    TotalAppend(edited, [row]);
    TotalOfOne(row);
  }

  /**
   * Applying the table's changes keeps the total and the count: a cell without
   * a number counted as nothing before and counts as 0 after.
   */
  lemma ApplyEditsKeepsTotal(edited: seq<Row>)
    ensures Total(ApplyEdits(edited)) == Total(edited)
    ensures Count(ApplyEdits(edited)) == Count(edited)
  {
    TotalIsCoercedSum(edited);
    TotalIsCoercedSum(ApplyEdits(edited));
    CoercedSumPointwise(ApplyEdits(edited), edited);
  }

  /** With no negative amount, deleting never raises the total. */
  lemma {:induction false} KeepLowersTotal(rows: seq<Row>, selection: seq<string>)
    requires NoNegative(rows)
    ensures Total(Keep(rows, selection)) <= Total(rows)
  {
    if rows != [] {
      var n := |rows| - 1;
      var last := [rows[n]];
      assert rows == rows[..n] + last;
      KeepLowersTotal(rows[..n], selection);
      TotalAppend(rows[..n], last);
      var tail := if rows[n].ticker in selection then [] else last;
      TotalAppend(Keep(rows[..n], selection), tail);
      TotalOfOne(rows[n]);
    }
  }
}
