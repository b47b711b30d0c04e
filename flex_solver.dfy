/**
 * The flexible-width solver: `mapColumns`, `getDynamicColumnWidths` and `solveWidths`.
 *
 * Flexible columns share the space left over by the static ones in proportion to
 * their weights. Each column's proportional target and its distance outside its
 * bounds (its delta) are computed first; the columns are then stable-sorted by
 * descending delta and clamped one by one in that order, each taking its width out
 * of the remaining space and its weight out of the remaining weight; finally the
 * columns are put back in their original order.
 */
module FlexSolver {
  import opened Types
  import opened WidthParser

  /**
   * A flexible column as `mapColumns` describes it: its key, its position among the
   * flexible columns, its weight, its resolved bounds (`None` is an unbounded
   * maximum) and its delta.
   */
  datatype FlexEntry = FlexEntry(
    key: Key,
    index: nat,
    weight: nat,
    minWidth: real,
    maxWidth: Option<real>,
    delta: real)

  /** A flexible column together with the `columnWidth` the solver assigned to it. */
  datatype SizedColumn = SizedColumn(column: FlexEntry, width: real)

  /** `Math.min` and `Math.max` on two finite numbers. */
  function Min(a: real, b: real): real { if a <= b then a else b }
  function Max(a: real, b: real): real { if a >= b then a else b }

  predicate WithinBounds(x: real, lo: real, hi: Option<real>)
  {
    lo <= x && (hi.None? || x <= hi.value)
  }

  /**
   * `Math.max(min, Math.min(x, max))`: the maximum is applied first and the
   * minimum last, so the minimum wins when the bounds cross.
   */
  function Clamp(x: real, lo: real, hi: Option<real>): (r: real)
    ensures lo <= r
    ensures hi.Some? && lo <= hi.value ==> r <= hi.value
    ensures WithinBounds(x, lo, hi) ==> r == x
    ensures x <= lo ==> r == lo
    ensures hi.Some? && hi.value <= lo ==> r == lo
    ensures hi.Some? && lo <= hi.value <= x ==> r == hi.value
  {
    var capped := if hi.None? then x else Min(x, hi.value);
    Max(lo, capped)
  }

  /**
   * `Math.max(0, min - target, target - max)`: how far the target lies outside its
   * bounds (an unbounded maximum contributes `-Infinity`, which never wins).
   */
  function Delta(target: real, lo: real, hi: Option<real>): (d: real)
    ensures d >= 0.0
    ensures d == 0.0 <==> WithinBounds(target, lo, hi)
    ensures d >= lo - target
    ensures hi.Some? ==> d >= target - hi.value
  {
    var over := if hi.None? then 0.0 else target - hi.value;
    Max(0.0, Max(lo - target, over))
  }

  /** A column whose `defaultWidth` does not give it weight 0 (the solver divides by the pool's remaining weight). */
  predicate NoZeroWeight(c: Column)
  {
    ParseFractionalUnit(c.defaultWidth) != Ok(0)
  }

  predicate PositiveWeights(es: seq<FlexEntry>)
  {
    forall i :: 0 <= i < |es| ==> es[i].weight > 0
  }

  /** The sum of the pool's weights as `mapColumns` reduces them; `TotalWeightOfWeights` ties it to `TotalWeight`. */
  function SumNat(s: seq<nat>): nat
  {
    if s == [] then 0 else s[0] + SumNat(s[1..])
  }

  /** The sum of the weights of some flexible columns (`remainingFractions`). */
  function TotalWeight(es: seq<FlexEntry>): nat
  {
    if es == [] then 0 else es[0].weight + TotalWeight(es[1..])
  }

  function SumReals(s: seq<real>): real
  {
    if s == [] then 0.0 else s[0] + SumReals(s[1..])
  }

  /** `weight * space / totalWeight`: a column's proportional share of the space. */
  function Target(weight: nat, space: real, total: nat): real
    requires total > 0
  {
    (weight as real) * space / (total as real)
  }

  // ---------------------------------------------------------------------------
  // mapColumns
  // ---------------------------------------------------------------------------

  /** The weights of the columns, read in order (the `reduce` that starts `mapColumns`). */
  function Weights(columns: seq<Column>): (r: Result<seq<nat>>)
    ensures r.Ok? <==> forall i :: 0 <= i < |columns| ==> ParseFractionalUnit(columns[i].defaultWidth).Ok?
    ensures r.Ok? ==> |r.value| == |columns|
    ensures r.Ok? ==> forall i :: 0 <= i < |columns| ==> ParseFractionalUnit(columns[i].defaultWidth) == Ok(r.value[i])
  {
    if columns == [] then Ok([])
    else
      var n := |columns| - 1;
      var init :- Weights(columns[..n]);
      var w :- ParseFractionalUnit(columns[n].defaultWidth);
      Ok(init + [w])
  }

  /** What `mapColumns` records for column `c` at position `i`. */
  predicate Describes(e: FlexEntry, c: Column, i: nat, weight: nat, space: real, total: nat)
    requires total > 0
  {
    && e.key == c.key
    && e.index == i
    && e.weight == weight
    && MinWidth(c.minWidth) == Ok(e.minWidth)
    && MaxWidth(c.maxWidth) == Ok(e.maxWidth)
    && e.delta == Delta(Target(weight, space, total), e.minWidth, e.maxWidth)
  }

  /** The per-column `map` of `mapColumns`: bounds are read in order, minimum before maximum. */
  function MapEntries(columns: seq<Column>, weights: seq<nat>, space: real, total: nat): (r: Result<seq<FlexEntry>>)
    requires |weights| == |columns| && total > 0
    ensures r.Ok? <==> forall i :: 0 <= i < |columns| ==> MinWidth(columns[i].minWidth).Ok? && MaxWidth(columns[i].maxWidth).Ok?
    ensures r.Ok? ==> |r.value| == |columns|
    ensures r.Ok? ==> forall i :: 0 <= i < |columns| ==> Describes(r.value[i], columns[i], i, weights[i], space, total)
  {
    if columns == [] then Ok([])
    else
      var n := |columns| - 1;
      var init :- MapEntries(columns[..n], weights[..n], space, total);
      var lo :- MinWidth(columns[n].minWidth);
      var hi :- MaxWidth(columns[n].maxWidth);
      Ok(init + [FlexEntry(columns[n].key, n, weights[n], lo, hi, Delta(Target(weights[n], space, total), lo, hi))])
  }

  lemma {:induction false} TotalWeightOfWeights(es: seq<FlexEntry>, weights: seq<nat>)
    requires |es| == |weights|
    requires forall i :: 0 <= i < |es| ==> es[i].weight == weights[i]
    ensures TotalWeight(es) == SumNat(weights)
  {
    if es != [] {
      TotalWeightOfWeights(es[1..], weights[1..]);
    }
  }

  /**
   * `mapColumns`: one entry per flexible column, numbered in order, with its weight,
   * its bounds and the delta of its proportional target against the total weight.
   */
  function MapColumns(columns: seq<Column>, space: real): (r: Result<seq<FlexEntry>>)
    requires forall c :: c in columns ==> NoZeroWeight(c)
    ensures r.Ok? <==> forall i :: 0 <= i < |columns| ==>
      ParseFractionalUnit(columns[i].defaultWidth).Ok? && MinWidth(columns[i].minWidth).Ok? && MaxWidth(columns[i].maxWidth).Ok?
    ensures r.Ok? ==> |r.value| == |columns| && PositiveWeights(r.value)
    ensures r.Ok? ==> forall i :: 0 <= i < |columns| ==>
      Describes(r.value[i], columns[i], i, ParseFractionalUnit(columns[i].defaultWidth).value, space, TotalWeight(r.value))
  {
    match Weights(columns)
    case Err(e) => Err(e)
    case Ok(weights) =>
      if columns == [] then Ok([])
      else
        WeightsPositive(columns, weights);
        var entries :- MapEntries(columns, weights, space, SumNat(weights));
        TotalWeightOfWeights(entries, weights);
        Ok(entries)
  }

  lemma WeightsPositive(columns: seq<Column>, weights: seq<nat>)
    requires forall c :: c in columns ==> NoZeroWeight(c)
    requires |weights| == |columns|
    requires forall i :: 0 <= i < |columns| ==> ParseFractionalUnit(columns[i].defaultWidth) == Ok(weights[i])
    ensures forall i :: 0 <= i < |weights| ==> weights[i] > 0
    ensures |weights| > 0 ==> SumNat(weights) > 0
  {
    forall i | 0 <= i < |weights| ensures weights[i] > 0 {
      assert columns[i] in columns;
    }
  }

  // ---------------------------------------------------------------------------
  // The first sort: a stable sort by descending delta
  // ---------------------------------------------------------------------------

  /** Inserts `e` after every element whose delta is at least its own. */
  function InsertByDelta(e: FlexEntry, s: seq<FlexEntry>): (r: seq<FlexEntry>)
    ensures |r| == |s| + 1
  {
    if s == [] then [e]
    else if s[0].delta >= e.delta then [s[0]] + InsertByDelta(e, s[1..])
    else [e] + s
  }

  /** Insertion sort: each element, taken in input order, goes after the equal ones already placed. */
  function SortByDelta(s: seq<FlexEntry>): (r: seq<FlexEntry>)
    ensures |r| == |s|
  {
    if s == [] then []
    else InsertByDelta(s[|s| - 1], SortByDelta(s[..|s| - 1]))
  }

  lemma {:induction false} InsertByDeltaPermutes(e: FlexEntry, s: seq<FlexEntry>)
    ensures multiset(InsertByDelta(e, s)) == multiset(s) + multiset{e}
  {
    if s != [] && s[0].delta >= e.delta {
      InsertByDeltaPermutes(e, s[1..]);
      assert s == [s[0]] + s[1..];
    }
  }

  /** The sort by delta only reorders the entries. */
  lemma {:induction false} SortByDeltaPermutes(s: seq<FlexEntry>)
    ensures multiset(SortByDelta(s)) == multiset(s)
  {
    if s != [] {
      var n := |s| - 1;
      var sorted := SortByDelta(s[..n]);
      assert SortByDelta(s) == InsertByDelta(s[n], sorted);
      SortByDeltaPermutes(s[..n]);
      InsertByDeltaPermutes(s[n], sorted);
      MultisetOfSnoc(s);
    }
  }

  lemma MultisetOfSnoc(s: seq<FlexEntry>)
    requires s != []
    ensures multiset(s) == multiset(s[..|s| - 1]) + multiset{s[|s| - 1]}
  {
    assert s == s[..|s| - 1] + [s[|s| - 1]];
  }

  /** `a` is processed before `b`: larger delta first, equal deltas in index order. */
  predicate Precedes(a: FlexEntry, b: FlexEntry)
  {
    a.delta > b.delta || (a.delta == b.delta && a.index < b.index)
  }

  predicate ProcessingOrder(s: seq<FlexEntry>)
  {
    forall i, j :: 0 <= i < j < |s| ==> Precedes(s[i], s[j])
  }

  lemma ProcessingOrderCons(a: FlexEntry, t: seq<FlexEntry>)
    requires ProcessingOrder(t)
    requires forall x :: x in t ==> Precedes(a, x)
    ensures ProcessingOrder([a] + t)
  {
    var s := [a] + t;
    forall i, j | 0 <= i < j < |s| ensures Precedes(s[i], s[j]) {
      assert s[j] == t[j - 1];
      if i == 0 {
        assert s[j] in t;
      } else {
        assert s[i] == t[i - 1];
      }
    }
  }

  lemma ProcessingOrderTail(s: seq<FlexEntry>)
    requires ProcessingOrder(s) && s != []
    ensures ProcessingOrder(s[1..])
    ensures forall x :: x in s[1..] ==> Precedes(s[0], x)
  {
    forall x | x in s[1..] ensures Precedes(s[0], x) {
      var k :| 0 <= k < |s[1..]| && s[1..][k] == x;
      assert s[k + 1] == x;
    }
  }

  lemma {:induction false} InsertByDeltaOrdered(e: FlexEntry, s: seq<FlexEntry>)
    requires ProcessingOrder(s)
    requires forall x :: x in s ==> x.index < e.index
    ensures ProcessingOrder(InsertByDelta(e, s))
  {
    if s == [] {
    } else if s[0].delta >= e.delta {
      var tail := InsertByDelta(e, s[1..]);
      ProcessingOrderTail(s);
      InsertByDeltaOrdered(e, s[1..]);
      InsertByDeltaPermutes(e, s[1..]);
      forall x | x in tail ensures Precedes(s[0], x) {
        assert x in multiset(tail);
      }
      ProcessingOrderCons(s[0], tail);
    } else {
      ProcessingOrderTail(s);
      ProcessingOrderCons(e, s);
    }
  }

  /**
   * The stable sort by descending delta: given entries numbered in increasing order,
   * the result has non-increasing deltas and keeps tied entries in input order.
   */
  lemma {:induction false} SortByDeltaOrdered(s: seq<FlexEntry>)
    requires forall i, j :: 0 <= i < j < |s| ==> s[i].index < s[j].index
    ensures ProcessingOrder(SortByDelta(s))
  {
    if s != [] {
      var n := |s| - 1;
      var sorted := SortByDelta(s[..n]);
      SortByDeltaOrdered(s[..n]);
      SortByDeltaPermutes(s[..n]);
      forall x | x in sorted ensures x.index < s[n].index {
        assert x in multiset(s[..n]);
        var k :| 0 <= k < n && s[..n][k] == x;
      }
      InsertByDeltaOrdered(s[n], sorted);
    }
  }

  lemma {:induction false} TotalWeightAppend(s: seq<FlexEntry>, e: FlexEntry)
    ensures TotalWeight(s + [e]) == TotalWeight(s) + e.weight
  {
    if s != [] {
      assert (s + [e])[1..] == s[1..] + [e];
      TotalWeightAppend(s[1..], e);
    }
  }

  lemma {:induction false} TotalWeightInsert(e: FlexEntry, s: seq<FlexEntry>)
    ensures TotalWeight(InsertByDelta(e, s)) == e.weight + TotalWeight(s)
  {
    if s != [] && s[0].delta >= e.delta {
      TotalWeightInsert(e, s[1..]);
      assert ([s[0]] + InsertByDelta(e, s[1..]))[1..] == InsertByDelta(e, s[1..]);
    }
  }

  lemma {:induction false} TotalWeightSorted(s: seq<FlexEntry>)
    ensures TotalWeight(SortByDelta(s)) == TotalWeight(s)
  {
    if s != [] {
      var n := |s| - 1;
      TotalWeightSorted(s[..n]);
      TotalWeightInsert(s[n], SortByDelta(s[..n]));
      TotalWeightAppend(s[..n], s[n]);
      assert s[..n] + [s[n]] == s;
    }
  }

  // ---------------------------------------------------------------------------
  // solveWidths
  // ---------------------------------------------------------------------------

  /**
   * The widths `solveWidths` assigns, one per entry in processing order: each entry
   * takes its clamped share of the remaining space by the remaining weight, and the
   * rest of the entries share what is left.
   */
  function Solve(es: seq<FlexEntry>, space: real): (r: seq<real>)
    requires PositiveWeights(es)
    ensures |r| == |es|
  {
    if es == [] then []
    else
      var w := Clamp(Target(es[0].weight, space, TotalWeight(es)), es[0].minWidth, es[0].maxWidth);
      [w] + Solve(es[1..], space - w)
  }

  /**
   * Every width the solver assigns is at least the column's minimum, and at most
   * its maximum whenever the minimum does not exceed the maximum.
   */
  lemma {:induction false} SolveWithinBounds(es: seq<FlexEntry>, space: real)
    requires PositiveWeights(es)
    ensures forall i :: 0 <= i < |es| ==> Solve(es, space)[i] >= es[i].minWidth
    ensures forall i :: 0 <= i < |es| ==>
      es[i].maxWidth.Some? && es[i].minWidth <= es[i].maxWidth.value ==> Solve(es, space)[i] <= es[i].maxWidth.value
  {
    if es != [] {
      var w := Clamp(Target(es[0].weight, space, TotalWeight(es)), es[0].minWidth, es[0].maxWidth);
      var rest := Solve(es[1..], space - w);
      SolveWithinBounds(es[1..], space - w);
      assert Solve(es, space) == [w] + rest;
      forall i | 1 <= i < |es| ensures Solve(es, space)[i] == rest[i - 1] && es[i] == es[1..][i - 1] { }
    }
  }

  /** `solveWidths`: the loop that clamps each entry in turn and shrinks the pool. */
  method SolveWidths(columns: seq<FlexEntry>, space: real) returns (widths: seq<real>)
    requires PositiveWeights(columns)
    ensures widths == Solve(columns, space)
  {
    var remainingSpace := space;
    var remainingFractions := TotalWeight(columns);
    widths := [];
    var i := 0;
    while i < |columns|
      invariant 0 <= i <= |columns|
      invariant remainingFractions == TotalWeight(columns[i..])
      invariant widths + Solve(columns[i..], remainingSpace) == Solve(columns, space)
    {
      var column := columns[i];
      assert columns[i..][0] == column && columns[i..][1..] == columns[i + 1..];
      var targetWidth := Target(column.weight, remainingSpace, remainingFractions);
      var width := Clamp(targetWidth, column.minWidth, column.maxWidth);
      assert Solve(columns[i..], remainingSpace) == [width] + Solve(columns[i + 1..], remainingSpace - width);
      widths := widths + [width];
      remainingSpace := remainingSpace - width;
      remainingFractions := remainingFractions - column.weight;
      i := i + 1;
    }
    assert columns[i..] == [];
  }

  lemma ShareOfShrunkPool(weight: nat, first: nat, rest: nat, space: real)
    requires first > 0 && rest > 0
    ensures Target(weight, space - Target(first, space, first + rest), rest) == Target(weight, space, first + rest)
  {
    var t := (first + rest) as real;
    var f := first as real;
    var left := space - f * space / t;
    assert left == space * (rest as real) / t;
    assert (weight as real) * left / (rest as real) == (weight as real) * space / t;
  }

  /** The only column left in the pool is offered all of the space. */
  lemma WholePool(weight: nat, space: real)
    requires weight > 0
    ensures Target(weight, space, weight) == space
  {
    var w := weight as real;
    assert w * space / w == space;
  }

  /**
   * When no target is clamped, every entry receives exactly its proportional share
   * of the space and the shares add up to the whole space.
   */
  lemma {:induction false} SolveProportional(es: seq<FlexEntry>, space: real)
    requires PositiveWeights(es)
    requires forall i :: 0 <= i < |es| ==>
      WithinBounds(Target(es[i].weight, space, TotalWeight(es)), es[i].minWidth, es[i].maxWidth)
    ensures forall i :: 0 <= i < |es| ==> Solve(es, space)[i] == Target(es[i].weight, space, TotalWeight(es))
    ensures |es| > 0 ==> SumReals(Solve(es, space)) == space
  {
    if es != [] {
      var total := TotalWeight(es);
      var w := Target(es[0].weight, space, total);
      var tail := es[1..];
      var r := Solve(es, space);
      assert r == [w] + Solve(tail, space - w);
      if tail == [] {
        assert total == es[0].weight + TotalWeight(tail);
        WholePool(es[0].weight, space);
        assert r == [space];
      } else {
        assert tail[0] == es[1];
        forall i | 0 <= i < |tail|
          ensures Target(tail[i].weight, space - w, TotalWeight(tail)) == Target(tail[i].weight, space, total)
        {
          ShareOfShrunkPool(tail[i].weight, es[0].weight, TotalWeight(tail), space);
        }
        SolveProportional(tail, space - w);
        forall i | 0 <= i < |es| ensures r[i] == Target(es[i].weight, space, total) {
          if i > 0 {
            assert r[i] == Solve(tail, space - w)[i - 1];
          }
        }
      }
    }
  }

  lemma {:induction false} SumRealsAppend(s: seq<real>, x: real)
    ensures SumReals(s + [x]) == SumReals(s) + x
  {
    if s != [] {
      assert (s + [x])[1..] == s[1..] + [x];
      SumRealsAppend(s[1..], x);
    }
  }

  /**
   * The last entry processed is offered everything the earlier ones left over:
   * its width is that leftover, clamped, so when the clamp is inactive the widths
   * add up to exactly the space given to the solver.
   */
  lemma {:induction false} LastEntryTakesRemainder(es: seq<FlexEntry>, space: real)
    requires PositiveWeights(es) && |es| > 0
    ensures var ws := Solve(es, space);
            var last := es[|es| - 1];
            var leftover := space - SumReals(ws[..|es| - 1]);
            && ws[|es| - 1] == Clamp(leftover, last.minWidth, last.maxWidth)
            && (WithinBounds(leftover, last.minWidth, last.maxWidth) ==> SumReals(ws) == space)
  {
    var ws := Solve(es, space);
    var n := |es| - 1;
    var w := ws[0];
    if n == 0 {
      assert TotalWeight(es) == es[0].weight + TotalWeight(es[1..]);
      WholePool(es[0].weight, space);
      assert ws[..0] == [];
    } else {
      var tail := es[1..];
      var rest := Solve(tail, space - w);
      assert ws == [w] + rest;
      LastEntryTakesRemainder(tail, space - w);
      assert ws[..n] == [w] + rest[..n - 1];
      assert SumReals(ws[..n]) == w + SumReals(rest[..n - 1]);
      assert tail[n - 1] == es[n];
    }
    SumRealsAppend(ws[..n], ws[n]);
    assert ws[..n] + [ws[n]] == ws;
  }

  // ---------------------------------------------------------------------------
  // The second sort: back to the order of the columns by their index
  // ---------------------------------------------------------------------------

  /** The first position in `s` of the entry numbered `i` (`|s|` when there is none). */
  function PositionOf(s: seq<FlexEntry>, i: nat): (k: nat)
    ensures k <= |s|
    ensures k < |s| ==> s[k].index == i
    ensures forall j :: 0 <= j < k ==> s[j].index != i
  {
    if s == [] then 0
    else if s[0].index == i then 0
    else 1 + PositionOf(s[1..], i)
  }

  /**
   * Sorting by index entries numbered 0..n-1 puts the entry numbered `i` at
   * position `i`; this places each entry, with its width, directly there.
   */
  function RestoreOrder(order: seq<FlexEntry>, widths: seq<real>): (r: seq<SizedColumn>)
    requires |widths| == |order|
    requires forall i :: 0 <= i < |order| ==> PositionOf(order, i) < |order|
    ensures |r| == |order|
    ensures forall i :: 0 <= i < |order| ==>
      r[i].column.index == i && r[i] == SizedColumn(order[PositionOf(order, i)], widths[PositionOf(order, i)])
  {
    seq(|order|, i requires 0 <= i < |order| => SizedColumn(order[PositionOf(order, i)], widths[PositionOf(order, i)]))
  }

  /** Entries numbered by position, after the sort by delta, can all be found again by number. */
  lemma SortedEntriesFound(entries: seq<FlexEntry>)
    requires forall i :: 0 <= i < |entries| ==> entries[i].index == i
    ensures forall i :: 0 <= i < |entries| ==>
      PositionOf(SortByDelta(entries), i) < |entries| && SortByDelta(entries)[PositionOf(SortByDelta(entries), i)] == entries[i]
  {
    var order := SortByDelta(entries);
    SortByDeltaPermutes(entries);
    forall i | 0 <= i < |entries|
      ensures PositionOf(order, i) < |order| && order[PositionOf(order, i)] == entries[i]
    {
      assert entries[i] in multiset(order);
      var k :| 0 <= k < |order| && order[k] == entries[i];
      var p := PositionOf(order, i);
      assert p <= k;
      assert order[p] in multiset(entries);
      var j :| 0 <= j < |entries| && entries[j] == order[p];
    }
  }

  lemma SortedWeightsPositive(entries: seq<FlexEntry>)
    requires PositiveWeights(entries)
    ensures PositiveWeights(SortByDelta(entries))
  {
    var order := SortByDelta(entries);
    SortByDeltaPermutes(entries);
    forall k | 0 <= k < |order| ensures order[k].weight > 0 {
      assert order[k] in multiset(entries);
    }
  }

  // ---------------------------------------------------------------------------
  // getDynamicColumnWidths
  // ---------------------------------------------------------------------------

  /**
   * The widths of the flexible columns, in their original order: entry `i` is
   * column `i` as `mapColumns` described it, with the width it received when the
   * solver reached it in delta order.
   */
  function DynamicColumnWidths(columns: seq<Column>, space: real): (r: Result<seq<SizedColumn>>)
    requires forall c :: c in columns ==> NoZeroWeight(c)
    ensures r.Ok? <==> MapColumns(columns, space).Ok?
    ensures r.Ok? ==> |r.value| == |columns|
    ensures r.Ok? ==> forall i :: 0 <= i < |columns| ==>
      r.value[i].column == MapColumns(columns, space).value[i] && r.value[i].column.key == columns[i].key
  {
    var entries :- MapColumns(columns, space);
    var order := SortByDelta(entries);
    SortedEntriesFound(entries);
    SortedWeightsPositive(entries);
    Ok(RestoreOrder(order, Solve(order, space)))
  }

  /**
   * Every flexible width is at least the column's minimum (75 when it declares
   * none), and at most its declared maximum whenever that does not undercut the
   * minimum.
   */
  lemma DynamicWidthsWithinBounds(columns: seq<Column>, space: real)
    requires forall c :: c in columns ==> NoZeroWeight(c)
    requires DynamicColumnWidths(columns, space).Ok?
    ensures var sized := DynamicColumnWidths(columns, space).value;
            forall i :: 0 <= i < |columns| ==>
              && MinWidth(columns[i].minWidth).Ok? && MaxWidth(columns[i].maxWidth).Ok?
              && sized[i].width >= MinWidth(columns[i].minWidth).value
              && (MaxWidth(columns[i].maxWidth).value.Some? && MinWidth(columns[i].minWidth).value <= MaxWidth(columns[i].maxWidth).value.value
                  ==> sized[i].width <= MaxWidth(columns[i].maxWidth).value.value)
  {
    var entries := MapColumns(columns, space).value;
    var order := SortByDelta(entries);
    SortedEntriesFound(entries);
    SortedWeightsPositive(entries);
    SolveWithinBounds(order, space);
    var sized := DynamicColumnWidths(columns, space).value;
    forall i | 0 <= i < |columns|
      ensures sized[i].width >= entries[i].minWidth
      ensures entries[i].maxWidth.Some? && entries[i].minWidth <= entries[i].maxWidth.value ==> sized[i].width <= entries[i].maxWidth.value
    {
      assert sized[i].column == entries[i];
    }
    forall i | 0 <= i < |columns|
      ensures MinWidth(columns[i].minWidth) == Ok(entries[i].minWidth) && MaxWidth(columns[i].maxWidth) == Ok(entries[i].maxWidth)
    {
      assert Describes(entries[i], columns[i], i, ParseFractionalUnit(columns[i].defaultWidth).value, space, TotalWeight(entries));
    }
  }

  /** `getDynamicColumnWidths`: map, sort by delta, solve, sort back. */
  method GetDynamicColumnWidths(remainingColumns: seq<Column>, remainingSpace: real) returns (r: Result<seq<SizedColumn>>)
    requires forall c :: c in remainingColumns ==> NoZeroWeight(c)
    ensures r == DynamicColumnWidths(remainingColumns, remainingSpace)
  {
    var columns :- MapColumns(remainingColumns, remainingSpace);
    ghost var entries := columns;
    columns := SortByDelta(columns);
    SortedEntriesFound(entries);
    SortedWeightsPositive(entries);
    var widths := SolveWidths(columns, remainingSpace);
    r := Ok(RestoreOrder(columns, widths));
  }

  /**
   * The solver reaches the flexible columns in order of non-increasing delta,
   * tied columns in their original order.
   */
  lemma ProcessingOrderOfColumns(columns: seq<Column>, space: real)
    requires forall c :: c in columns ==> NoZeroWeight(c)
    requires MapColumns(columns, space).Ok?
    ensures ProcessingOrder(SortByDelta(MapColumns(columns, space).value))
  {
    SortByDeltaOrdered(MapColumns(columns, space).value);
  }

  /**
   * When no flexible column's target is out of bounds (every delta is 0), each
   * column receives exactly its share `weight * space / totalWeight`, and the
   * flexible columns fill the space exactly.
   */
  lemma UnclampedColumnsShareSpace(columns: seq<Column>, space: real)
    requires forall c :: c in columns ==> NoZeroWeight(c)
    requires MapColumns(columns, space).Ok?
    requires forall i :: 0 <= i < |columns| ==> MapColumns(columns, space).value[i].delta == 0.0
    ensures DynamicColumnWidths(columns, space).Ok?
    ensures var entries := MapColumns(columns, space).value;
            var sized := DynamicColumnWidths(columns, space).value;
            forall i :: 0 <= i < |columns| ==> sized[i].width == Target(entries[i].weight, space, TotalWeight(entries))
    ensures |columns| > 0 ==> SumReals(Widths(DynamicColumnWidths(columns, space).value)) == space
  {
    var entries := MapColumns(columns, space).value;
    forall i | 0 <= i < |entries|
      ensures WithinBounds(Target(entries[i].weight, space, TotalWeight(entries)), entries[i].minWidth, entries[i].maxWidth)
    {
      assert Describes(entries[i], columns[i], i, ParseFractionalUnit(columns[i].defaultWidth).value, space, TotalWeight(entries));
    }
    UnclampedEntriesShareSpace(entries, space);
    var sized := DynamicColumnWidths(columns, space).value;
    assert sized == RestoreOrder(SortByDelta(entries), Solve(SortByDelta(entries), space));
    if |columns| > 0 {
      SharesSum(entries, sized, space);
    }
  }

  lemma UnclampedEntriesShareSpace(entries: seq<FlexEntry>, space: real)
    requires PositiveWeights(entries)
    requires forall i :: 0 <= i < |entries| ==> entries[i].index == i
    requires forall i :: 0 <= i < |entries| ==>
      WithinBounds(Target(entries[i].weight, space, TotalWeight(entries)), entries[i].minWidth, entries[i].maxWidth)
    ensures PositiveWeights(SortByDelta(entries))
    ensures forall i :: 0 <= i < |entries| ==> PositionOf(SortByDelta(entries), i) < |entries|
    ensures var order := SortByDelta(entries);
            var sized := RestoreOrder(order, Solve(order, space));
            forall i :: 0 <= i < |entries| ==>
              TotalWeight(entries) > 0 && sized[i].width == Target(entries[i].weight, space, TotalWeight(entries))
  {
    var order := SortByDelta(entries);
    SortedEntriesFound(entries);
    SortedWeightsPositive(entries);
    TotalWeightSorted(entries);
    SortByDeltaPermutes(entries);
    forall k | 0 <= k < |order|
      ensures WithinBounds(Target(order[k].weight, space, TotalWeight(order)), order[k].minWidth, order[k].maxWidth)
    {
      assert order[k] in multiset(entries);
    }
    SolveProportional(order, space);
    var widths := Solve(order, space);
    var sized := RestoreOrder(order, widths);
    forall i | 0 <= i < |entries|
      ensures TotalWeight(entries) > 0 && sized[i].width == Target(entries[i].weight, space, TotalWeight(entries))
    {
      var p := PositionOf(order, i);
      assert sized[i].width == widths[p] && order[p] == entries[i];
    }
  }

  /** The widths of a list of sized columns. */
  function Widths(sized: seq<SizedColumn>): (ws: seq<real>)
    ensures |ws| == |sized|
    ensures forall i :: 0 <= i < |sized| ==> ws[i] == sized[i].width
  {
    seq(|sized|, i requires 0 <= i < |sized| => sized[i].width)
  }

  lemma {:induction false} SharesSum(entries: seq<FlexEntry>, sized: seq<SizedColumn>, space: real)
    requires |entries| == |sized| > 0 && PositiveWeights(entries)
    requires forall i :: 0 <= i < |entries| ==> sized[i].width == Target(entries[i].weight, space, TotalWeight(entries))
    ensures SumReals(Widths(sized)) == space
  {
    var total := TotalWeight(entries);
    PartialShares(entries, sized, space, total);
    assert entries[0..] == entries && sized[0..] == sized;
  }

  lemma SharesAdd(a: nat, b: nat, space: real, total: nat)
    requires total > 0
    ensures Target(a, space, total) + (b as real) * space / (total as real) == ((a + b) as real) * space / (total as real)
  {
  }

  lemma {:induction false} PartialShares(entries: seq<FlexEntry>, sized: seq<SizedColumn>, space: real, total: nat)
    requires |entries| == |sized| && total > 0
    requires forall i :: 0 <= i < |entries| ==> sized[i].width == Target(entries[i].weight, space, total)
    ensures SumReals(Widths(sized)) == (TotalWeight(entries) as real) * space / (total as real)
  {
    if entries != [] {
      PartialShares(entries[1..], sized[1..], space, total);
      assert Widths(sized)[1..] == Widths(sized[1..]);
      SharesAdd(entries[0].weight, TotalWeight(entries[1..]), space, total);
    }
  }
}
