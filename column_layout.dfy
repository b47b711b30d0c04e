/**
 * `buildColumnWidths`: the widths of a run of columns laid out in a given space.
 * Columns that were resized keep their committed width, columns with a static
 * declared width reserve it, and the rest share what is left through the flexible
 * solver.
 */
module ColumnLayout {
  import opened Types
  import opened WidthParser
  import opened FlexSolver

  /** `props.width ?? props.defaultWidth ?? 75`: the width a column declares. */
  function DeclaredWidth(c: Column): WidthSpec
  {
    match c.width
    case Some(w) => w
    case None =>
      match c.defaultWidth
      case Some(w) => w
      case None => Pixels(DefaultWidth)
  }

  /**
   * The `width` the first pass looks at: the committed width of a resized column
   * (`None` when the committed map has no entry, JavaScript's `undefined`), the
   * declared width of any other column.
   */
  function LookedUpWidth(c: Column, resized: set<Key>, committed: map<Key, real>): Option<WidthSpec>
  {
    if c.key in resized then
      if c.key in committed then Some(Pixels(committed[c.key])) else None
    else
      Some(DeclaredWidth(c))
  }

  /** How the first pass of `buildColumnWidths` treats one column. */
  datatype Sizing = Fixed(px: real) | Flexible

  /** A column that neither was resized nor declares a static width goes to the flexible pool. */
  predicate IsFlexible(c: Column, resized: set<Key>)
  {
    c.key !in resized && !IsStatic(DeclaredWidth(c))
  }


  /**
   * One iteration of the first loop: `isStatic(width)` decides between reserving
   * `parseWidth(width)` and joining the pool; `isStatic(undefined)` throws.
   */
  function Classify(c: Column, resized: set<Key>, committed: map<Key, real>): (r: Result<Sizing>)
    ensures r.Ok? <==> (c.key in resized ==> c.key in committed)
    ensures r.Err? ==> r.error == TypeError
    ensures r.Ok? ==> (r.value.Flexible? <==> IsFlexible(c, resized))
    ensures r.Ok? && c.key in resized ==> r.value == Fixed(committed[c.key])
    ensures c.key !in resized && IsStatic(DeclaredWidth(c)) ==> r == Ok(Fixed(ParseWidth(DeclaredWidth(c)).value))
  {
    match LookedUpWidth(c, resized, committed)
    case None => Err(TypeError)
    case Some(width) =>
      if IsStatic(width) then Ok(Fixed(ParseWidth(width).value)) else Ok(Flexible)
  }

  /** What the first loop has built: the reserved widths, the pool and the space left. */
  datatype Partition = Partition(reserved: map<Key, real>, flexible: seq<Column>, remainingSpace: real)

  /** The first loop of `buildColumnWidths` over `columns`, in order. */
  function StaticPass(columns: seq<Column>, space: real, resized: set<Key>, committed: map<Key, real>): (r: Result<Partition>)
    ensures r.Ok? ==> forall c :: c in r.value.flexible ==> c in columns
    ensures r.Ok? ==> r.value.flexible == FlexibleColumns(columns, resized)
  {
    if columns == [] then Ok(Partition(map[], [], space))
    else
      var n := |columns| - 1;
      var p :- StaticPass(columns[..n], space, resized, committed);
      var sizing :- Classify(columns[n], resized, committed);
      match sizing
      case Fixed(w) => Ok(Partition(p.reserved[columns[n].key := w], p.flexible, p.remainingSpace - w))
      case Flexible => Ok(Partition(p.reserved, p.flexible + [columns[n]], p.remainingSpace))
  }

  /** Every resized column has a committed width. */
  predicate Classifiable(columns: seq<Column>, resized: set<Key>, committed: map<Key, real>)
  {
    forall i :: 0 <= i < |columns| && columns[i].key in resized ==> columns[i].key in committed
  }

  /** The columns that go to the flexible pool, in order. */
  function FlexibleColumns(columns: seq<Column>, resized: set<Key>): seq<Column>
  {
    if columns == [] then []
    else
      var n := |columns| - 1;
      FlexibleColumns(columns[..n], resized) + (if IsFlexible(columns[n], resized) then [columns[n]] else [])
  }

  /**
   * Every column that goes to the pool has a weight other than `flex-0`; the
   * weights of the other columns are never read.
   */
  predicate PoolWeighted(columns: seq<Column>, resized: set<Key>)
  {
    forall c :: c in FlexibleColumns(columns, resized) ==> NoZeroWeight(c)
  }

  /** The widths the other columns reserve, in order. */
  function ReservedWidths(columns: seq<Column>, resized: set<Key>, committed: map<Key, real>): seq<real>
    requires Classifiable(columns, resized, committed)
  {
    if columns == [] then []
    else
      var n := |columns| - 1;
      ReservedWidths(columns[..n], resized, committed)
        + (if IsFlexible(columns[n], resized) then [] else [Classify(columns[n], resized, committed).value.px])
  }

  /** The space the first pass leaves to the pool: the available space minus every reserved width. */
  function PoolSpace(columns: seq<Column>, space: real, resized: set<Key>, committed: map<Key, real>): real
    requires Classifiable(columns, resized, committed)
  {
    space - SumReals(ReservedWidths(columns, resized, committed))
  }

  /** The first pass fails exactly when a resized column has no committed width. */
  lemma {:induction false} StaticPassSucceeds(columns: seq<Column>, space: real, resized: set<Key>, committed: map<Key, real>)
    ensures StaticPass(columns, space, resized, committed).Ok? <==> Classifiable(columns, resized, committed)
    ensures StaticPass(columns, space, resized, committed).Err? ==> StaticPass(columns, space, resized, committed).error == TypeError
  {
    if columns != [] {
      var n := |columns| - 1;
      StaticPassSucceeds(columns[..n], space, resized, committed);
      if !Classifiable(columns[..n], resized, committed) {
        var i :| 0 <= i < n && columns[..n][i].key in resized && columns[..n][i].key !in committed;
        assert columns[i] == columns[..n][i];
      }
    }
  }

  /**
   * The pool is exactly the flexible columns in order, and it is offered the
   * available space minus every reserved width.
   */
  lemma {:induction false} StaticPassPartition(columns: seq<Column>, space: real, resized: set<Key>, committed: map<Key, real>)
    requires StaticPass(columns, space, resized, committed).Ok?
    ensures Classifiable(columns, resized, committed)
    ensures StaticPass(columns, space, resized, committed).value.flexible == FlexibleColumns(columns, resized)
    ensures StaticPass(columns, space, resized, committed).value.remainingSpace
      == PoolSpace(columns, space, resized, committed)
  {
    StaticPassSucceeds(columns, space, resized, committed);
    if columns != [] {
      var n := |columns| - 1;
      StaticPassSucceeds(columns[..n], space, resized, committed);
      StaticPassPartition(columns[..n], space, resized, committed);
      var c := columns[n];
      if !IsFlexible(c, resized) {
        SumRealsAppend(ReservedWidths(columns[..n], resized, committed), Classify(c, resized, committed).value.px);
      } else {
        assert Classify(c, resized, committed) == Ok(Flexible);
        assert ReservedWidths(columns, resized, committed) == ReservedWidths(columns[..n], resized, committed);
      }
    }
  }

  /** The reserved keys are the keys of the columns that are not flexible. */
  lemma {:induction false} StaticPassReservedKeys(columns: seq<Column>, space: real, resized: set<Key>, committed: map<Key, real>)
    requires StaticPass(columns, space, resized, committed).Ok?
    ensures var p := StaticPass(columns, space, resized, committed).value;
            forall i :: 0 <= i < |columns| && !IsFlexible(columns[i], resized) ==> columns[i].key in p.reserved
    ensures forall k :: k in StaticPass(columns, space, resized, committed).value.reserved ==> k in KeysOf(columns)
  {
    if columns != [] {
      var n := |columns| - 1;
      var prefix := columns[..n];
      StaticPassReservedKeys(prefix, space, resized, committed);
      var p := StaticPass(columns, space, resized, committed).value;
      var q := StaticPass(prefix, space, resized, committed).value;
      assert p.reserved.Keys <= q.reserved.Keys + {columns[n].key};
      forall i | 0 <= i < n ensures columns[i] == prefix[i] { }
      forall k | k in p.reserved ensures k in KeysOf(columns) {
        if k in q.reserved {
          var c :| c in prefix && c.key == k;
          assert c in columns;
        } else {
          assert columns[n] in columns;
        }
      }
    }
  }

  /**
   * With unique keys, a column that is not flexible is reserved at the width
   * `Classify` gives it, and a flexible column's key is not reserved.
   */
  lemma {:induction false} StaticPassReservedWidths(columns: seq<Column>, space: real, resized: set<Key>, committed: map<Key, real>)
    requires UniqueKeys(columns)
    requires StaticPass(columns, space, resized, committed).Ok?
    ensures var p := StaticPass(columns, space, resized, committed).value;
            forall i :: 0 <= i < |columns| ==>
              if IsFlexible(columns[i], resized) then columns[i].key !in p.reserved
              else columns[i].key in p.reserved && Classify(columns[i], resized, committed) == Ok(Fixed(p.reserved[columns[i].key]))
  {
    if columns != [] {
      var n := |columns| - 1;
      var prefix := columns[..n];
      assert UniqueKeys(prefix);
      StaticPassReservedWidths(prefix, space, resized, committed);
      StaticPassReservedKeys(prefix, space, resized, committed);
      var q := StaticPass(prefix, space, resized, committed).value;
      assert columns[n].key !in q.reserved;
      forall i | 0 <= i < n ensures columns[i] == prefix[i] && columns[i].key != columns[n].key { }
    }
  }

  /** The pool holds only flexible columns taken from `columns`. */
  lemma {:induction false} FlexibleColumnsSound(columns: seq<Column>, resized: set<Key>)
    ensures forall c :: c in FlexibleColumns(columns, resized) ==> c in columns && IsFlexible(c, resized)
  {
    if columns != [] {
      var n := |columns| - 1;
      FlexibleColumnsSound(columns[..n], resized);
      forall c | c in columns[..n] ensures c in columns { }
    }
  }

  /** The pool has unique keys when the columns do. */
  lemma {:induction false} FlexibleColumnsUnique(columns: seq<Column>, resized: set<Key>)
    requires UniqueKeys(columns)
    ensures forall c :: c in FlexibleColumns(columns, resized) ==> c in columns && IsFlexible(c, resized)
    ensures UniqueKeys(FlexibleColumns(columns, resized))
  {
    FlexibleColumnsSound(columns, resized);
    if columns != [] {
      var n := |columns| - 1;
      var prefix := columns[..n];
      assert UniqueKeys(prefix);
      FlexibleColumnsUnique(prefix, resized);
      forall c | c in FlexibleColumns(prefix, resized) ensures c.key != columns[n].key && c in columns {
        var i :| 0 <= i < n && prefix[i] == c;
        assert columns[i] == c;
      }
    }
  }

  /** Every flexible column is in the pool. */
  lemma {:induction false} FlexibleColumnsComplete(columns: seq<Column>, resized: set<Key>)
    ensures forall i :: 0 <= i < |columns| && IsFlexible(columns[i], resized) ==> columns[i] in FlexibleColumns(columns, resized)
  {
    if columns != [] {
      var n := |columns| - 1;
      FlexibleColumnsComplete(columns[..n], resized);
      forall i | 0 <= i < n ensures columns[i] == columns[..n][i] { }
    }
  }

  /** When no column at all is `flex-0`, no pool column is. */
  lemma AllColumnsWeighted(columns: seq<Column>, resized: set<Key>)
    requires forall c :: c in columns ==> NoZeroWeight(c)
    ensures PoolWeighted(columns, resized)
  {
    FlexibleColumnsSound(columns, resized);
  }

  /**
   * The columns from `start` on, with more keys marked as resized, send to the
   * pool only columns that the whole list sends there.
   */
  lemma PoolWeightedSuffix(columns: seq<Column>, resized: set<Key>, start: nat, more: set<Key>)
    requires start <= |columns|
    requires PoolWeighted(columns, resized)
    ensures PoolWeighted(columns[start..], resized + more)
  {
    FlexibleColumnsSound(columns[start..], resized + more);
    FlexibleColumnsComplete(columns, resized);
    forall c | c in FlexibleColumns(columns[start..], resized + more) ensures NoZeroWeight(c) {
      var j :| 0 <= j < |columns| - start && columns[start..][j] == c;
      assert columns[start + j] == c;
    }
  }

  /** Where a flexible column sits in the pool. */
  lemma PoolPosition(columns: seq<Column>, resized: set<Key>, i: nat) returns (j: nat)
    requires i < |columns| && IsFlexible(columns[i], resized)
    ensures j < |FlexibleColumns(columns, resized)| && FlexibleColumns(columns, resized)[j] == columns[i]
  {
    FlexibleColumnsComplete(columns, resized);
    var flex := FlexibleColumns(columns, resized);
    assert columns[i] in flex;
    j :| 0 <= j < |flex| && flex[j] == columns[i];
  }

  /** Once the first pass has thrown on a prefix, the rest of the columns are never reached. */
  lemma {:induction false} StaticPassErrorPersists(columns: seq<Column>, k: nat, space: real, resized: set<Key>, committed: map<Key, real>)
    requires k <= |columns|
    requires StaticPass(columns[..k], space, resized, committed).Err?
    ensures StaticPass(columns, space, resized, committed) == StaticPass(columns[..k], space, resized, committed)
    decreases |columns| - k
  {
    if k < |columns| {
      assert columns[..k + 1][..k] == columns[..k];
      StaticPassErrorPersists(columns, k + 1, space, resized, committed);
    } else {
      assert columns[..k] == columns;
    }
  }

  // ---------------------------------------------------------------------------
  // The second loop and the whole of `buildColumnWidths`
  // ---------------------------------------------------------------------------

  /** The second loop: each solved width is set under its column's key, in order. */
  function AssignAll(m: map<Key, real>, sized: seq<SizedColumn>): map<Key, real>
  {
    if sized == [] then m
    else
      var n := |sized| - 1;
      AssignAll(m, sized[..n])[sized[n].column.key := sized[n].width]
  }

  lemma AssignAllStep(m: map<Key, real>, sized: seq<SizedColumn>, j: nat)
    requires j < |sized|
    ensures AssignAll(m, sized[..j + 1]) == AssignAll(m, sized[..j])[sized[j].column.key := sized[j].width]
  {
    assert sized[..j + 1][..j] == sized[..j];
  }

  /** The keys of some solved columns. */
  function SizedKeys(sized: seq<SizedColumn>): set<Key>
  {
    set i | 0 <= i < |sized| :: sized[i].column.key
  }

  lemma {:induction false} AssignAllKeys(m: map<Key, real>, sized: seq<SizedColumn>)
    ensures AssignAll(m, sized).Keys == m.Keys + SizedKeys(sized)
  {
    if sized != [] {
      var n := |sized| - 1;
      AssignAllKeys(m, sized[..n]);
      assert SizedKeys(sized) == SizedKeys(sized[..n]) + {sized[n].column.key} by {
        forall k | k in SizedKeys(sized) ensures k in SizedKeys(sized[..n]) + {sized[n].column.key} {
          var i :| 0 <= i < |sized| && sized[i].column.key == k;
          if i < n {
            assert sized[..n][i] == sized[i];
          }
        }
        forall k | k in SizedKeys(sized[..n]) ensures k in SizedKeys(sized) {
          var i :| 0 <= i < n && sized[..n][i].column.key == k;
          assert sized[i] == sized[..n][i];
        }
      }
    }
  }

  /**
   * With distinct keys, every solved column ends up at its own width and every
   * other key keeps the value it had.
   */
  lemma {:induction false} AssignAllValues(m: map<Key, real>, sized: seq<SizedColumn>)
    requires forall i, j :: 0 <= i < j < |sized| ==> sized[i].column.key != sized[j].column.key
    ensures forall i :: 0 <= i < |sized| ==>
      sized[i].column.key in AssignAll(m, sized) && AssignAll(m, sized)[sized[i].column.key] == sized[i].width
    ensures forall k :: k in m && k !in SizedKeys(sized) ==> k in AssignAll(m, sized) && AssignAll(m, sized)[k] == m[k]
  {
    if sized != [] {
      var n := |sized| - 1;
      AssignAllValues(m, sized[..n]);
      forall i | 0 <= i < n ensures sized[..n][i] == sized[i] { }
      forall k | k in SizedKeys(sized[..n]) ensures k in SizedKeys(sized) {
        var i :| 0 <= i < n && sized[..n][i].column.key == k;
        assert sized[i] == sized[..n][i];
      }
    }
  }

  /**
   * `buildColumnWidths(affectedColumns, availableSpace)` against the resized keys
   * and the committed widths: the reserved widths, then the pool's solved widths
   * when the pool is not empty.
   */
  function BuildWidths(affected: seq<Column>, space: real, resized: set<Key>, committed: map<Key, real>): Result<map<Key, real>>
    requires PoolWeighted(affected, resized)
  {
    var p :- StaticPass(affected, space, resized, committed);
    if p.flexible == [] then Ok(p.reserved)
    else
      StaticPassPartition(affected, space, resized, committed);
      var sized :- DynamicColumnWidths(p.flexible, p.remainingSpace);
      Ok(AssignAll(p.reserved, sized))
  }

  /** `buildColumnWidths`: the static loop, then the dynamic loop over the solved pool. */
  method BuildColumnWidths(affectedColumns: seq<Column>, availableSpace: real, resizedColumns: set<Key>, committed: map<Key, real>)
    returns (r: Result<map<Key, real>>)
    requires PoolWeighted(affectedColumns, resizedColumns)
    ensures r == BuildWidths(affectedColumns, availableSpace, resizedColumns, committed)
  {
    var pass := ReserveStaticColumns(affectedColumns, availableSpace, resizedColumns, committed);
    if pass.Err? {
      return Err(pass.error);
    }
    var widths := pass.value.reserved;
    if |pass.value.flexible| > 0 {
      var newColumnWidths :- GetDynamicColumnWidths(pass.value.flexible, pass.value.remainingSpace);
      widths := SetSolvedWidths(widths, newColumnWidths);
    }
    r := Ok(widths);
  }

  /**
   * The first loop of `buildColumnWidths`: each static column is reserved at its
   * parsed width and taken off the space, every other column joins the pool.
   */
  method ReserveStaticColumns(affectedColumns: seq<Column>, availableSpace: real, resizedColumns: set<Key>, committed: map<Key, real>)
    returns (r: Result<Partition>)
    ensures r == StaticPass(affectedColumns, availableSpace, resizedColumns, committed)
  {
    var widths: map<Key, real> := map[];
    var remainingColumns: seq<Column> := [];
    var remainingSpace := availableSpace;
    var i := 0;
    while i < |affectedColumns|
      invariant 0 <= i <= |affectedColumns|
      invariant StaticPass(affectedColumns[..i], availableSpace, resizedColumns, committed)
        == Ok(Partition(widths, remainingColumns, remainingSpace))
    {
      var column := affectedColumns[i];
      assert affectedColumns[..i + 1][..i] == affectedColumns[..i] && affectedColumns[..i + 1][i] == column;
      var width := if column.key in resizedColumns then
          (if column.key in committed then Some(Pixels(committed[column.key])) else None)
        else Some(DeclaredWidth(column));
      if width.None? {
        StaticPassErrorPersists(affectedColumns, i + 1, availableSpace, resizedColumns, committed);
        return Err(TypeError);
      }
      if IsStatic(width.value) {
        var w := ParseWidth(width.value).value;
        widths := widths[column.key := w];
        remainingSpace := remainingSpace - w;
      } else {
        remainingColumns := remainingColumns + [column];
      }
      i := i + 1;
    }
    assert affectedColumns[..i] == affectedColumns;
    r := Ok(Partition(widths, remainingColumns, remainingSpace));
  }

  /** The second loop of `buildColumnWidths`: each solved width is set in turn. */
  method SetSolvedWidths(reserved: map<Key, real>, newColumnWidths: seq<SizedColumn>) returns (widths: map<Key, real>)
    ensures widths == AssignAll(reserved, newColumnWidths)
  {
    widths := reserved;
    var j := 0;
    while j < |newColumnWidths|
      invariant 0 <= j <= |newColumnWidths|
      invariant widths == AssignAll(reserved, newColumnWidths[..j])
    {
      AssignAllStep(reserved, newColumnWidths, j);
      widths := widths[newColumnWidths[j].column.key := newColumnWidths[j].width];
      j := j + 1;
    }
    assert newColumnWidths[..j] == newColumnWidths;
  }

  // ---------------------------------------------------------------------------
  // What `buildColumnWidths` promises
  // ---------------------------------------------------------------------------

  /** A column whose weight and both bounds can be read without throwing. */
  predicate PoolReadable(c: Column)
  {
    ParseFractionalUnit(c.defaultWidth).Ok? && MinWidth(c.minWidth).Ok? && MaxWidth(c.maxWidth).Ok?
  }

  /** Every flexible column has a weight and bounds that can be read. */
  predicate PoolIsReadable(affected: seq<Column>, resized: set<Key>)
  {
    forall i :: 0 <= i < |affected| && IsFlexible(affected[i], resized) ==> PoolReadable(affected[i])
  }

  lemma PoolReadableIff(affected: seq<Column>, resized: set<Key>)
    ensures PoolIsReadable(affected, resized) ==>
      forall j :: 0 <= j < |FlexibleColumns(affected, resized)| ==> PoolReadable(FlexibleColumns(affected, resized)[j])
    ensures (forall j :: 0 <= j < |FlexibleColumns(affected, resized)| ==> PoolReadable(FlexibleColumns(affected, resized)[j])) ==>
      PoolIsReadable(affected, resized)
  {
    var flex := FlexibleColumns(affected, resized);
    if PoolIsReadable(affected, resized) {
      FlexibleColumnsSound(affected, resized);
      forall j | 0 <= j < |flex| ensures PoolReadable(flex[j]) {
        assert flex[j] in affected;
        var i :| 0 <= i < |affected| && affected[i] == flex[j];
        assert IsFlexible(affected[i], resized);
      }
    }
    if forall j :: 0 <= j < |flex| ==> PoolReadable(flex[j]) {
      FlexibleColumnsComplete(affected, resized);
      forall i | 0 <= i < |affected| && IsFlexible(affected[i], resized) ensures PoolReadable(affected[i]) {
        assert affected[i] in flex;
        var j :| 0 <= j < |flex| && flex[j] == affected[i];
      }
    }
  }

  /**
   * The layout is built in two steps: the first pass, then, when the pool is not
   * empty, the solver over the pool and the space it was left.
   */
  lemma BuildWidthsSteps(affected: seq<Column>, space: real, resized: set<Key>, committed: map<Key, real>)
    requires PoolWeighted(affected, resized)
    requires StaticPass(affected, space, resized, committed).Ok?
    ensures var p := StaticPass(affected, space, resized, committed).value;
            p.flexible == [] ==> BuildWidths(affected, space, resized, committed) == Ok(p.reserved)
    ensures var p := StaticPass(affected, space, resized, committed).value;
            p.flexible != [] ==>
              && (BuildWidths(affected, space, resized, committed).Ok? <==> DynamicColumnWidths(p.flexible, p.remainingSpace).Ok?)
              && (BuildWidths(affected, space, resized, committed).Ok? ==>
                    BuildWidths(affected, space, resized, committed).value
                      == AssignAll(p.reserved, DynamicColumnWidths(p.flexible, p.remainingSpace).value))
  {
    var p := StaticPass(affected, space, resized, committed).value;
    assert StaticPass(affected, space, resized, committed) == Ok(p);
    if p.flexible != [] {
      var solved := DynamicColumnWidths(p.flexible, p.remainingSpace);
      if solved.Ok? {
        assert BuildWidths(affected, space, resized, committed) == Ok(AssignAll(p.reserved, solved.value));
      }
    }
  }

  /**
   * Laying out columns fails exactly when a resized column has no committed
   * width, or a flexible column has a weight or a bound that cannot be read.
   */
  lemma BuildWidthsSucceeds(affected: seq<Column>, space: real, resized: set<Key>, committed: map<Key, real>)
    requires PoolWeighted(affected, resized)
    ensures BuildWidths(affected, space, resized, committed).Ok? <==>
      Classifiable(affected, resized, committed) && PoolIsReadable(affected, resized)
  {
    StaticPassSucceeds(affected, space, resized, committed);
    if Classifiable(affected, resized, committed) {
      StaticPassPartition(affected, space, resized, committed);
      PoolReadableIff(affected, resized);
      BuildWidthsSteps(affected, space, resized, committed);
    }
  }

  /** Sized columns listed under the keys of `flex`, position by position, have its keys. */
  lemma SameKeys(flex: seq<Column>, sized: seq<SizedColumn>)
    requires |sized| == |flex|
    requires forall i :: 0 <= i < |flex| ==> sized[i].column.key == flex[i].key
    ensures SizedKeys(sized) == KeysOf(flex)
    ensures UniqueKeys(flex) ==> forall i, j :: 0 <= i < j < |sized| ==> sized[i].column.key != sized[j].column.key
  {
    forall k | k in KeysOf(flex) ensures k in SizedKeys(sized) {
      var c :| c in flex && c.key == k;
      var i :| 0 <= i < |flex| && flex[i] == c;
      assert sized[i].column.key == k;
    }
    forall k | k in SizedKeys(sized) ensures k in KeysOf(flex) {
      var i :| 0 <= i < |sized| && sized[i].column.key == k;
      assert flex[i] in flex;
    }
  }

  /** The solver returns one sized column per pool column, under the same key. */
  lemma SolvedKeys(flex: seq<Column>, space: real)
    requires forall c :: c in flex ==> NoZeroWeight(c)
    requires DynamicColumnWidths(flex, space).Ok?
    ensures SizedKeys(DynamicColumnWidths(flex, space).value) == KeysOf(flex)
    ensures UniqueKeys(flex) ==> var sized := DynamicColumnWidths(flex, space).value;
      forall i, j :: 0 <= i < j < |sized| ==> sized[i].column.key != sized[j].column.key
  {
    SameKeys(flex, DynamicColumnWidths(flex, space).value);
  }

  /**
   * The reserved keys and the pool's keys together are the columns' keys, and
   * with unique keys no pool key is reserved.
   */
  lemma StaticPassKeys(columns: seq<Column>, space: real, resized: set<Key>, committed: map<Key, real>)
    requires StaticPass(columns, space, resized, committed).Ok?
    ensures var p := StaticPass(columns, space, resized, committed).value;
            p.reserved.Keys + KeysOf(p.flexible) == KeysOf(columns)
    ensures var p := StaticPass(columns, space, resized, committed).value;
            UniqueKeys(columns) ==> p.reserved.Keys !! KeysOf(p.flexible)
  {
    var p := StaticPass(columns, space, resized, committed).value;
    StaticPassPartition(columns, space, resized, committed);
    StaticPassReservedKeys(columns, space, resized, committed);
    FlexibleColumnsSound(columns, resized);
    FlexibleColumnsComplete(columns, resized);
    forall k | k in KeysOf(columns) ensures k in p.reserved.Keys + KeysOf(p.flexible) {
      var c :| c in columns && c.key == k;
      var i :| 0 <= i < |columns| && columns[i] == c;
      if IsFlexible(c, resized) {
        assert c in p.flexible;
      }
    }
    forall k | k in KeysOf(p.flexible) ensures k in KeysOf(columns) {
      var c :| c in p.flexible && c.key == k;
      assert c in columns;
    }
    if UniqueKeys(columns) {
      StaticPassReservedWidths(columns, space, resized, committed);
      forall k | k in KeysOf(p.flexible) ensures k !in p.reserved {
        var c :| c in p.flexible && c.key == k;
        var i :| 0 <= i < |columns| && columns[i] == c;
        assert IsFlexible(columns[i], resized);
      }
    }
  }

  /** The layout has exactly one entry per affected column and no other. */
  lemma BuildWidthsKeys(affected: seq<Column>, space: real, resized: set<Key>, committed: map<Key, real>)
    requires PoolWeighted(affected, resized)
    requires BuildWidths(affected, space, resized, committed).Ok?
    ensures BuildWidths(affected, space, resized, committed).value.Keys == KeysOf(affected)
  {
    var p := StaticPass(affected, space, resized, committed).value;
    BuildWidthsSteps(affected, space, resized, committed);
    StaticPassKeys(affected, space, resized, committed);
    if p.flexible != [] {
      var sized := DynamicColumnWidths(p.flexible, p.remainingSpace).value;
      AssignAllKeys(p.reserved, sized);
      SolvedKeys(p.flexible, p.remainingSpace);
    } else {
      assert KeysOf(p.flexible) == {};
    }
  }

  /** With unique keys, every reserved width survives into the layout. */
  lemma BuildWidthsKeepReserved(affected: seq<Column>, space: real, resized: set<Key>, committed: map<Key, real>)
    requires UniqueKeys(affected)
    requires PoolWeighted(affected, resized)
    requires BuildWidths(affected, space, resized, committed).Ok?
    ensures var p := StaticPass(affected, space, resized, committed).value;
            var r := BuildWidths(affected, space, resized, committed).value;
            forall k :: k in p.reserved ==> k in r && r[k] == p.reserved[k]
  {
    var p := StaticPass(affected, space, resized, committed).value;
    BuildWidthsSteps(affected, space, resized, committed);
    if p.flexible != [] {
      StaticPassKeys(affected, space, resized, committed);
      StaticPassPartition(affected, space, resized, committed);
      FlexibleColumnsUnique(affected, resized);
      var sized := DynamicColumnWidths(p.flexible, p.remainingSpace).value;
      SolvedKeys(p.flexible, p.remainingSpace);
      AssignAllValues(p.reserved, sized);
    }
  }

  /**
   * A resized column keeps its committed width; any other column with a static
   * declared width gets that width parsed, so a column that declares neither
   * `width` nor `defaultWidth` is 75 pixels wide.
   */
  lemma BuildWidthsReserved(affected: seq<Column>, space: real, resized: set<Key>, committed: map<Key, real>)
    requires UniqueKeys(affected)
    requires PoolWeighted(affected, resized)
    requires BuildWidths(affected, space, resized, committed).Ok?
    ensures var r := BuildWidths(affected, space, resized, committed).value;
            forall i :: 0 <= i < |affected| && affected[i].key in resized ==>
              affected[i].key in committed && affected[i].key in r && r[affected[i].key] == committed[affected[i].key]
    ensures var r := BuildWidths(affected, space, resized, committed).value;
            forall i :: 0 <= i < |affected| && affected[i].key !in resized && IsStatic(DeclaredWidth(affected[i])) ==>
              affected[i].key in r && r[affected[i].key] == ParseWidth(DeclaredWidth(affected[i])).value
    ensures var r := BuildWidths(affected, space, resized, committed).value;
            forall i :: 0 <= i < |affected| && affected[i].key !in resized && affected[i].width.None? && affected[i].defaultWidth.None? ==>
              affected[i].key in r && r[affected[i].key] == DefaultWidth
  {
    StaticPassReservedWidths(affected, space, resized, committed);
    BuildWidthsKeepReserved(affected, space, resized, committed);
  }

  /**
   * The pool receives the available space minus every reserved width, and each
   * flexible column gets the width the solver gives it there.
   */
  lemma BuildWidthsPool(affected: seq<Column>, space: real, resized: set<Key>, committed: map<Key, real>)
    requires UniqueKeys(affected)
    requires PoolWeighted(affected, resized)
    requires BuildWidths(affected, space, resized, committed).Ok?
    ensures Classifiable(affected, resized, committed)
    ensures forall c :: c in FlexibleColumns(affected, resized) ==> NoZeroWeight(c)
    ensures var flex := FlexibleColumns(affected, resized);
            var pool := PoolSpace(affected, space, resized, committed);
            var r := BuildWidths(affected, space, resized, committed).value;
            flex != [] ==>
              && DynamicColumnWidths(flex, pool).Ok?
              && forall j :: 0 <= j < |flex| ==>
                   flex[j].key in r && r[flex[j].key] == DynamicColumnWidths(flex, pool).value[j].width
  {
    var p := StaticPass(affected, space, resized, committed).value;
    StaticPassPartition(affected, space, resized, committed);
    BuildWidthsSteps(affected, space, resized, committed);
    FlexibleColumnsUnique(affected, resized);
    if p.flexible != [] {
      var sized := DynamicColumnWidths(p.flexible, p.remainingSpace).value;
      SolvedKeys(p.flexible, p.remainingSpace);
      AssignAllValues(p.reserved, sized);
    }
  }

  /**
   * Every flexible column is at least its minimum wide, and at most its maximum
   * whenever that does not undercut the minimum.
   */
  lemma BuildWidthsFlexibleBounds(affected: seq<Column>, space: real, resized: set<Key>, committed: map<Key, real>)
    requires UniqueKeys(affected)
    requires PoolWeighted(affected, resized)
    requires BuildWidths(affected, space, resized, committed).Ok?
    ensures var r := BuildWidths(affected, space, resized, committed).value;
            forall i :: 0 <= i < |affected| && IsFlexible(affected[i], resized) ==>
              var c := affected[i];
              && MinWidth(c.minWidth).Ok? && MaxWidth(c.maxWidth).Ok? && c.key in r
              && r[c.key] >= MinWidth(c.minWidth).value
              && (MaxWidth(c.maxWidth).value.Some? && MinWidth(c.minWidth).value <= MaxWidth(c.maxWidth).value.value
                  ==> r[c.key] <= MaxWidth(c.maxWidth).value.value)
  {
    BuildWidthsPool(affected, space, resized, committed);
    var flex := FlexibleColumns(affected, resized);
    var pool := PoolSpace(affected, space, resized, committed);
    if flex != [] {
      DynamicWidthsWithinBounds(flex, pool);
    }
    var r := BuildWidths(affected, space, resized, committed).value;
    forall i | 0 <= i < |affected| && IsFlexible(affected[i], resized)
      ensures var c := affected[i];
              && MinWidth(c.minWidth).Ok? && MaxWidth(c.maxWidth).Ok? && c.key in r
              && r[c.key] >= MinWidth(c.minWidth).value
              && (MaxWidth(c.maxWidth).value.Some? && MinWidth(c.minWidth).value <= MaxWidth(c.maxWidth).value.value
                  ==> r[c.key] <= MaxWidth(c.maxWidth).value.value)
    {
      var j := PoolPosition(affected, resized, i);
      assert r[flex[j].key] == DynamicColumnWidths(flex, pool).value[j].width;
    }
  }

  // ---------------------------------------------------------------------------
  // A worked layout: a 200-pixel column followed by two `flex-1` columns
  // ---------------------------------------------------------------------------

  function FixedA(): Column { Column("a", Some(Pixels(200.0)), None, None, None) }
  function FlexB(): Column { Column("b", None, Some(Text("flex-1")), None, None) }
  function FlexC(): Column { Column("c", None, Some(Text("flex-1")), None, None) }

  lemma ExampleWeights()
    ensures ParseFractionalUnit(Some(Text("flex-1"))) == Ok(1)
    ensures !IsStatic(Text("flex-1"))
    ensures forall c :: c in [FixedA(), FlexB(), FlexC()] ==> NoZeroWeight(c)
  {
    FlexUnitRoundTrip(1, "");
    assert DecimalString(1) == "1";
    assert "flex-" + "1" + "" == "flex-1";
  }

  /** The first pass reserves 200 pixels for `a` and leaves `b` and `c` the other 600. */
  lemma ExampleStaticPass()
    ensures StaticPass([FixedA(), FlexB(), FlexC()], TableWidth, {}, map[])
      == Ok(Partition(map["a" := 200.0], [FlexB(), FlexC()], 600.0))
  {
    var columns := [FixedA(), FlexB(), FlexC()];
    ExampleWeights();
    assert columns[..2] == [FixedA(), FlexB()] && columns[..2][..1] == [FixedA()] && [FixedA()][..0] == [];
    assert Classify(FlexB(), {}, map[]) == Ok(Flexible) && Classify(FlexC(), {}, map[]) == Ok(Flexible);
    assert [] + [FlexB()] == [FlexB()] && [FlexB()] + [FlexC()] == [FlexB(), FlexC()];
    assert StaticPass([FixedA()], TableWidth, {}, map[]) == Ok(Partition(map["a" := 200.0], [], 600.0));
    assert StaticPass([FixedA(), FlexB()], TableWidth, {}, map[]) == Ok(Partition(map["a" := 200.0], [FlexB()], 600.0));
  }

  /** The flexible pool `b`, `c` reads weight 1, minimum 75 and no maximum for both columns. */
  lemma ExampleEntryFields()
    ensures forall c :: c in [FlexB(), FlexC()] ==> NoZeroWeight(c)
    ensures MapColumns([FlexB(), FlexC()], 600.0).Ok?
    ensures var entries := MapColumns([FlexB(), FlexC()], 600.0).value;
            forall i :: 0 <= i < |entries| ==>
              && entries[i].weight == 1 && entries[i].minWidth == DefaultMinWidth && entries[i].maxWidth.None?
              && entries[i].delta == Delta(Target(1, 600.0, TotalWeight(entries)), DefaultMinWidth, None)
  {
    ExampleWeights();
    var flex := [FlexB(), FlexC()];
    forall i | 0 <= i < |flex|
      ensures ParseFractionalUnit(flex[i].defaultWidth) == Ok(1)
      ensures MinWidth(flex[i].minWidth) == Ok(DefaultMinWidth) && MaxWidth(flex[i].maxWidth) == Ok(None)
    {
    }
    var entries := MapColumns(flex, 600.0).value;
    forall i | 0 <= i < |entries|
      ensures entries[i].weight == 1 && entries[i].minWidth == DefaultMinWidth && entries[i].maxWidth.None?
      ensures entries[i].delta == Delta(Target(1, 600.0, TotalWeight(entries)), DefaultMinWidth, None)
    {
      assert Describes(entries[i], flex[i], i, 1, 600.0, TotalWeight(entries));
    }
  }

  /** The pool weighs 2, and neither column's 300-pixel share needs clamping. */
  lemma ExampleEntries()
    ensures forall c :: c in [FlexB(), FlexC()] ==> NoZeroWeight(c)
    ensures MapColumns([FlexB(), FlexC()], 600.0).Ok?
    ensures var entries := MapColumns([FlexB(), FlexC()], 600.0).value;
            TotalWeight(entries) == 2 && forall i :: 0 <= i < |entries| ==> entries[i].weight == 1 && entries[i].delta == 0.0
  {
    ExampleEntryFields();
    var entries := MapColumns([FlexB(), FlexC()], 600.0).value;
    assert TotalWeight(entries) == 2 by {
      assert entries[1..][1..] == [];
    }
    assert Target(1, 600.0, 2) == 300.0;
    assert WithinBounds(300.0, DefaultMinWidth, None);
  }

  /** `b` and `c` each get half of the 600 pixels. */
  lemma ExamplePool()
    ensures forall c :: c in [FlexB(), FlexC()] ==> NoZeroWeight(c)
    ensures DynamicColumnWidths([FlexB(), FlexC()], 600.0).Ok?
    ensures var sized := DynamicColumnWidths([FlexB(), FlexC()], 600.0).value;
            |sized| == 2
            && sized[0].column.key == "b" && sized[0].width == 300.0
            && sized[1].column.key == "c" && sized[1].width == 300.0
  {
    ExampleEntries();
    UnclampedColumnsShareSpace([FlexB(), FlexC()], 600.0);
    assert Target(1, 600.0, 2) == 300.0;
  }

  /** The two flexible columns share the 600 pixels the fixed column leaves equally. */
  lemma BuildWidthsExample()
    ensures PoolWeighted([FixedA(), FlexB(), FlexC()], {})
    ensures BuildWidths([FixedA(), FlexB(), FlexC()], TableWidth, {}, map[])
      == Ok(map["a" := 200.0, "b" := 300.0, "c" := 300.0])
  {
    ExampleWeights();
    AllColumnsWeighted([FixedA(), FlexB(), FlexC()], {});
    ExampleStaticPass();
    ExamplePool();
    ExampleAssign(DynamicColumnWidths([FlexB(), FlexC()], 600.0).value);
  }

  /** Writing the pool's two widths over the reserved one. */
  lemma ExampleAssign(sized: seq<SizedColumn>)
    requires |sized| == 2
    requires sized[0].column.key == "b" && sized[0].width == 300.0
    requires sized[1].column.key == "c" && sized[1].width == 300.0
    ensures AssignAll(map["a" := 200.0], sized) == map["a" := 200.0, "b" := 300.0, "c" := 300.0]
  {
    AssignAllStep(map["a" := 200.0], sized, 0);
    AssignAllStep(map["a" := 200.0], sized, 1);
    assert sized[..0] == [] && sized[..2] == sized;
  }

  // ---------------------------------------------------------------------------
  // A worked pool with a clamp: `x` (flex-1, between 100 and 150 pixels) and
  // `y` (flex-1, unbounded) sharing 800 pixels
  // ---------------------------------------------------------------------------

  function BoundedX(): Column { Column("x", None, Some(Text("flex-1")), Some(Pixels(100.0)), Some(Pixels(150.0))) }
  function OpenY(): Column { Column("y", None, Some(Text("flex-1")), None, None) }

  /** `x` overshoots its maximum by 250 pixels; `y` is within its bounds. */
  function BoundedEntries(): seq<FlexEntry>
  {
    [FlexEntry("x", 0, 1, 100.0, Some(150.0), 250.0), FlexEntry("y", 1, 1, DefaultMinWidth, None, 0.0)]
  }

  lemma BoundedEntryFields()
    ensures forall c :: c in [BoundedX(), OpenY()] ==> NoZeroWeight(c)
    ensures MapColumns([BoundedX(), OpenY()], TableWidth).Ok?
    ensures var entries := MapColumns([BoundedX(), OpenY()], TableWidth).value;
            && entries[0].key == "x" && entries[1].key == "y"
            && entries[0].index == 0 && entries[1].index == 1
            && entries[0].weight == 1 && entries[1].weight == 1
            && entries[0].minWidth == 100.0 && entries[0].maxWidth == Some(150.0)
            && entries[1].minWidth == DefaultMinWidth && entries[1].maxWidth == None
            && entries[0].delta == Delta(Target(1, TableWidth, TotalWeight(entries)), 100.0, Some(150.0))
            && entries[1].delta == Delta(Target(1, TableWidth, TotalWeight(entries)), DefaultMinWidth, None)
  {
    ExampleWeights();
    var flex := [BoundedX(), OpenY()];
    forall i | 0 <= i < |flex| ensures ParseFractionalUnit(flex[i].defaultWidth) == Ok(1) {
    }
    var entries := MapColumns(flex, TableWidth).value;
    assert Describes(entries[0], flex[0], 0, 1, TableWidth, TotalWeight(entries));
    assert Describes(entries[1], flex[1], 1, 1, TableWidth, TotalWeight(entries));
  }

  /** Each share of 800 pixels split two ways is 400, which is 250 over `x`'s maximum. */
  lemma BoundedShares()
    ensures Target(1, TableWidth, 2) == 400.0
    ensures Delta(400.0, 100.0, Some(150.0)) == 250.0
    ensures Delta(400.0, DefaultMinWidth, None) == 0.0
  {
  }

  lemma BoundedMapColumns()
    ensures forall c :: c in [BoundedX(), OpenY()] ==> NoZeroWeight(c)
    ensures MapColumns([BoundedX(), OpenY()], TableWidth) == Ok(BoundedEntries())
  {
    BoundedEntryFields();
    var entries := MapColumns([BoundedX(), OpenY()], TableWidth).value;
    assert TotalWeight(entries) == 2 by {
      assert entries[1..][1..] == [];
    }
    BoundedShares();
    assert entries[0] == BoundedEntries()[0] && entries[1] == BoundedEntries()[1];
    assert entries == [entries[0], entries[1]];
  }

  /**
   * `x` is processed first; it is clamped to 150, and `y`, alone with the 650
   * pixels left, takes all of them.
   */
  lemma BoundedSolve()
    ensures PositiveWeights(BoundedEntries())
    ensures SortByDelta(BoundedEntries()) == BoundedEntries()
    ensures Solve(BoundedEntries(), TableWidth) == [150.0, 650.0]
  {
    var es := BoundedEntries();
    assert es[..1] == [es[0]] && es[..1][..0] == [];
    assert SortByDelta([es[0]]) == [es[0]];
    assert InsertByDelta(es[1], [es[0]]) == [es[0]] + InsertByDelta(es[1], []);
    assert es[1..] == [es[1]] && es[1..][1..] == [];
    assert TotalWeight(es) == 2;
    assert Target(1, TableWidth, 2) == 400.0 && Target(1, 650.0, 1) == 650.0;
  }

  /**
   * A column whose share exceeds its maximum gets exactly the maximum, and the
   * excess goes to its sibling: `x` gets 150 and `y` gets 650.
   */
  lemma BoundedPoolExample()
    ensures forall c :: c in [BoundedX(), OpenY()] ==> NoZeroWeight(c)
    ensures DynamicColumnWidths([BoundedX(), OpenY()], TableWidth).Ok?
    ensures var sized := DynamicColumnWidths([BoundedX(), OpenY()], TableWidth).value;
            |sized| == 2
            && sized[0].column.key == "x" && sized[0].width == 150.0
            && sized[1].column.key == "y" && sized[1].width == 650.0
  {
    BoundedMapColumns();
    BoundedSolve();
    var es := BoundedEntries();
    assert PositionOf(es, 0) == 0 && PositionOf(es, 1) == 1;
  }

  // ---------------------------------------------------------------------------
  // A fixed column whose `defaultWidth` would weigh 0: its weight is never read
  // ---------------------------------------------------------------------------

  function FixedZeroWeight(): Column { Column("s", Some(Pixels(100.0)), Some(Text("flex-0")), None, None) }

  /** The column is reserved at its 100 pixels; its `flex-0` default never reaches the solver. */
  lemma FixedZeroWeightExample()
    ensures !NoZeroWeight(FixedZeroWeight())
    ensures PoolWeighted([FixedZeroWeight()], {})
    ensures BuildWidths([FixedZeroWeight()], TableWidth, {}, map[]) == Ok(map["s" := 100.0])
  {
    FlexUnitRoundTrip(0, "");
    assert DecimalString(0) == "0";
    assert "flex-" + "0" + "" == "flex-0";
    var columns := [FixedZeroWeight()];
    assert columns[..0] == [];
    assert Classify(FixedZeroWeight(), {}, map[]) == Ok(Fixed(100.0));
    assert FlexibleColumns(columns, {}) == [];
  }
}
