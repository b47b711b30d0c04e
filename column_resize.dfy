/**
 * The state kept by `useColumnResizeWidthState` and the relayout that
 * `calculateColumnWidths` performs when the user drags a column's edge.
 */
module ColumnResize {
  import opened Types
  import opened WidthParser
  import opened FlexSolver
  import opened ColumnLayout

  /** How a call to `calculateColumnWidths` ended: normally, or by throwing. */
  datatype Outcome = Resized | Failed(error: LayoutError)

  /** The committed widths and the resized set after a resize, and how it ended. */
  datatype ResizeStep = ResizeStep(widths: map<Key, real>, resized: set<Key>, outcome: Outcome)

  /** Every column has a committed width. */
  predicate Covers(columns: seq<Column>, widths: map<Key, real>)
  {
    forall c :: c in columns ==> c.key in widths
  }

  /**
   * The width a dragged column gets: the requested width clamped to the column's
   * bounds, the minimum read before the maximum.
   */
  function ClampedWidth(column: Column, newWidth: real): (r: Result<real>)
    ensures r.Ok? <==> MinWidth(column.minWidth).Ok? && MaxWidth(column.maxWidth).Ok?
    ensures r.Err? ==> r.error == UnsupportedWidth
    ensures r.Ok? ==> r.value >= MinWidth(column.minWidth).value
    ensures r.Ok? && MaxWidth(column.maxWidth).value.Some? && MinWidth(column.minWidth).value <= MaxWidth(column.maxWidth).value.value
      ==> r.value <= MaxWidth(column.maxWidth).value.value
    ensures r.Ok? && WithinBounds(newWidth, MinWidth(column.minWidth).value, MaxWidth(column.maxWidth).value) ==> r.value == newWidth
    ensures r.Ok? && newWidth <= MinWidth(column.minWidth).value ==> r.value == MinWidth(column.minWidth).value
    ensures r.Ok? && MaxWidth(column.maxWidth).value.Some? && MaxWidth(column.maxWidth).value.value <= MinWidth(column.minWidth).value
      ==> r.value == MinWidth(column.minWidth).value
    ensures r.Ok? && MaxWidth(column.maxWidth).value.Some?
      && MinWidth(column.minWidth).value <= MaxWidth(column.maxWidth).value.value <= newWidth
      ==> r.value == MaxWidth(column.maxWidth).value.value
  {
    var lo :- MinWidth(column.minWidth);
    var hi :- MaxWidth(column.maxWidth);
    Ok(Clamp(newWidth, lo, hi))
  }

  /** `Array.prototype.findIndex` by key: the first position holding `key`, or -1. */
  function FindIndex(columns: seq<Column>, key: Key): (r: int)
    ensures -1 <= r < |columns|
    ensures r >= 0 ==> columns[r].key == key
    ensures forall j :: 0 <= j < |columns| && (r < 0 || j < r) ==> columns[j].key != key
  {
    if columns == [] then -1
    else if columns[0].key == key then 0
    else
      var r := FindIndex(columns[1..], key);
      if r < 0 then -1 else r + 1
  }

  /** The columns up to and including the resized one (none when it is not found). */
  function Kept(columns: seq<Column>, key: Key): seq<Column>
  {
    columns[..FindIndex(columns, key) + 1]
  }

  /** The columns after the resized one (all of them when it is not found). */
  function Affected(columns: seq<Column>, key: Key): seq<Column>
  {
    columns[FindIndex(columns, key) + 1..]
  }

  /** The `reduce` that subtracts the widths of `prefix`, in order, from `space`. */
  function SpaceLeft(prefix: seq<Column>, widths: map<Key, real>, space: real): real
    requires Covers(prefix, widths)
  {
    if prefix == [] then space
    else
      var n := |prefix| - 1;
      SpaceLeft(prefix[..n], widths, space) - widths[prefix[n].key]
  }

  /** The widths of `prefix`, in order. */
  function PrefixWidths(prefix: seq<Column>, widths: map<Key, real>): (ws: seq<real>)
    requires Covers(prefix, widths)
    ensures |ws| == |prefix|
    ensures forall i :: 0 <= i < |prefix| ==> ws[i] == widths[prefix[i].key]
  {
    seq(|prefix|, i requires 0 <= i < |prefix| => widths[prefix[i].key])
  }

  /** What the kept columns do not take of `space` is left to the affected ones. */
  lemma {:induction false} SpaceLeftSum(prefix: seq<Column>, widths: map<Key, real>, space: real)
    requires Covers(prefix, widths)
    ensures SpaceLeft(prefix, widths, space) == space - SumReals(PrefixWidths(prefix, widths))
  {
    if prefix != [] {
      var n := |prefix| - 1;
      SpaceLeftSum(prefix[..n], widths, space);
      assert PrefixWidths(prefix, widths) == PrefixWidths(prefix[..n], widths) + [widths[prefix[n].key]];
      SumRealsAppend(PrefixWidths(prefix[..n], widths), widths[prefix[n].key]);
    }
  }

  /** `findIndex` finds a column exactly when some column has the key. */
  lemma FindIndexFound(columns: seq<Column>, key: Key)
    ensures FindIndex(columns, key) >= 0 <==> key in KeysOf(columns)
  {
    if key in KeysOf(columns) {
      var c :| c in columns && c.key == key;
      var i :| 0 <= i < |columns| && columns[i] == c;
    }
  }

  /** The kept and the affected columns split the list at the resized column. */
  lemma KeptAndAffected(columns: seq<Column>, key: Key)
    ensures Kept(columns, key) + Affected(columns, key) == columns
    ensures forall c :: c in Affected(columns, key) ==> c in columns
    ensures forall c :: c in Kept(columns, key) ==> c in columns
  {
  }

  /** The resized column ends the kept ones; without it, every column is affected. */
  lemma KeptEndsAtKey(columns: seq<Column>, key: Key)
    ensures key in KeysOf(columns) ==> Kept(columns, key) != [] && Kept(columns, key)[|Kept(columns, key)| - 1].key == key
    ensures key !in KeysOf(columns) ==> Kept(columns, key) == [] && Affected(columns, key) == columns
  {
    FindIndexFound(columns, key);
  }

  /**
   * Marking the dragged column as resized only takes columns out of the pool,
   * so the affected columns still send only weighted columns to it.
   */
  lemma AffectedPoolWeighted(columns: seq<Column>, resized: set<Key>, key: Key)
    requires PoolWeighted(columns, resized)
    ensures PoolWeighted(columns, resized + {key})
    ensures PoolWeighted(Affected(columns, key), resized + {key})
  {
    PoolWeightedSuffix(columns, resized, 0, {key});
    assert columns[0..] == columns;
    PoolWeightedSuffix(columns, resized, FindIndex(columns, key) + 1, {key});
  }

  /** With distinct keys, the resized column is not among the affected ones. */
  lemma AffectedExcludesKey(columns: seq<Column>, key: Key)
    requires UniqueKeys(columns)
    ensures forall c :: c in Affected(columns, key) ==> c.key != key
  {
    var start := FindIndex(columns, key) + 1;
    assert Affected(columns, key) == columns[start..];
    forall j | start <= j < |columns| ensures columns[j].key != key {
      if start > 0 {
        assert columns[start - 1].key == key;
      }
    }
  }

  /** The space the affected columns are laid out in, after the dragged column took `w`. */
  function AvailableSpace(columns: seq<Column>, widths: map<Key, real>, key: Key, w: real): real
    requires Covers(columns, widths)
  {
    KeptAndAffected(columns, key);
    SpaceLeft(Kept(columns, key), widths[key := w], TableWidth)
  }

  /**
   * The relayout after the dragged column took `w`: the column is marked as
   * resized and the columns after it are laid out again in the space that the
   * columns up to it leave; resized columns keep their committed widths.
   */
  function Relayout(columns: seq<Column>, widths: map<Key, real>, resized: set<Key>, column: Column, w: real): Result<map<Key, real>>
    requires PoolWeighted(columns, resized)
    requires Covers(columns, widths)
  {
    AffectedPoolWeighted(columns, resized, column.key);
    BuildWidths(Affected(columns, column.key), AvailableSpace(columns, widths, column.key, w), resized + {column.key}, widths)
  }

  /**
   * One call of `calculateColumnWidths(column, newWidth)` against the committed
   * widths `widths` and the resized set `resized`: the clamp, then the relayout,
   * whose widths are merged over the committed ones. When the relayout throws,
   * the column stays marked as resized but the committed widths are unchanged.
   */
  function Resize(columns: seq<Column>, widths: map<Key, real>, resized: set<Key>, column: Column, newWidth: real): (r: ResizeStep)
    requires PoolWeighted(columns, resized)
    requires Covers(columns, widths)
    ensures ClampedWidth(column, newWidth).Err? ==> r == ResizeStep(widths, resized, Failed(UnsupportedWidth))
    ensures ClampedWidth(column, newWidth).Ok? ==> r.resized == resized + {column.key}
    ensures r.outcome.Failed? ==> r.widths == widths
  {
    match ClampedWidth(column, newWidth)
    case Err(e) => ResizeStep(widths, resized, Failed(e))
    case Ok(w) =>
      match Relayout(columns, widths, resized, column, w)
      case Err(e) => ResizeStep(widths, resized + {column.key}, Failed(e))
      case Ok(built) => ResizeStep(widths[column.key := w] + built, resized + {column.key}, Resized)
  }

  // ---------------------------------------------------------------------------
  // What a resize promises
  // ---------------------------------------------------------------------------

  /**
   * The space handed to the affected columns is the table width minus the widths
   * of the kept columns, the dragged column counted at its new width.
   */
  lemma AvailableSpaceSum(columns: seq<Column>, widths: map<Key, real>, key: Key, w: real)
    requires Covers(columns, widths)
    ensures Covers(Kept(columns, key), widths[key := w])
    ensures AvailableSpace(columns, widths, key, w)
      == TableWidth - SumReals(PrefixWidths(Kept(columns, key), widths[key := w]))
    ensures key in KeysOf(columns) ==>
      PrefixWidths(Kept(columns, key), widths[key := w])[|Kept(columns, key)| - 1] == w
  {
    KeptAndAffected(columns, key);
    KeptEndsAtKey(columns, key);
    SpaceLeftSum(Kept(columns, key), widths[key := w], TableWidth);
  }

  /** Resizing a column that is not in the list lays every column out again in the whole table. */
  lemma RelayoutUnknownColumn(columns: seq<Column>, widths: map<Key, real>, resized: set<Key>, column: Column, w: real)
    requires PoolWeighted(columns, resized)
    requires Covers(columns, widths)
    requires column.key !in KeysOf(columns)
    ensures PoolWeighted(columns, resized + {column.key})
    ensures Relayout(columns, widths, resized, column, w) == BuildWidths(columns, TableWidth, resized + {column.key}, widths)
  {
    AffectedPoolWeighted(columns, resized, column.key);
    KeptEndsAtKey(columns, column.key);
  }

  /**
   * A resize completes exactly when the bounds of the dragged column can be read
   * and every affected column that goes to the flexible pool has a readable weight
   * and bounds; a committed width is never missing.
   */
  lemma ResizeSucceeds(columns: seq<Column>, widths: map<Key, real>, resized: set<Key>, column: Column, newWidth: real)
    requires PoolWeighted(columns, resized)
    requires Covers(columns, widths)
    ensures Resize(columns, widths, resized, column, newWidth).outcome == Resized <==>
      ClampedWidth(column, newWidth).Ok? && PoolIsReadable(Affected(columns, column.key), resized + {column.key})
  {
    var affected := Affected(columns, column.key);
    KeptAndAffected(columns, column.key);
    assert Classifiable(affected, resized + {column.key}, widths);
    if ClampedWidth(column, newWidth).Ok? {
      var w := ClampedWidth(column, newWidth).value;
      AffectedPoolWeighted(columns, resized, column.key);
      BuildWidthsSucceeds(affected, AvailableSpace(columns, widths, column.key, w), resized + {column.key}, widths);
    }
  }

  /** A completed relayout assigns exactly the affected columns. */
  lemma RelayoutKeys(columns: seq<Column>, widths: map<Key, real>, resized: set<Key>, column: Column, w: real)
    requires UniqueKeys(columns)
    requires PoolWeighted(columns, resized)
    requires Covers(columns, widths)
    requires Relayout(columns, widths, resized, column, w).Ok?
    ensures Relayout(columns, widths, resized, column, w).value.Keys == KeysOf(Affected(columns, column.key))
    ensures column.key !in KeysOf(Affected(columns, column.key))
  {
    KeptAndAffected(columns, column.key);
    AffectedExcludesKey(columns, column.key);
    AffectedPoolWeighted(columns, resized, column.key);
    BuildWidthsKeys(Affected(columns, column.key), AvailableSpace(columns, widths, column.key, w), resized + {column.key}, widths);
  }

  /**
   * After a completed resize the dragged column has its clamped width, and the
   * committed widths cover the same keys plus the dragged column's.
   */
  lemma ResizeSetsWidth(columns: seq<Column>, widths: map<Key, real>, resized: set<Key>, column: Column, newWidth: real)
    requires UniqueKeys(columns)
    requires PoolWeighted(columns, resized)
    requires Covers(columns, widths)
    requires Resize(columns, widths, resized, column, newWidth).outcome == Resized
    ensures ClampedWidth(column, newWidth).Ok?
    ensures var r := Resize(columns, widths, resized, column, newWidth);
            column.key in r.widths && r.widths[column.key] == ClampedWidth(column, newWidth).value
    ensures Resize(columns, widths, resized, column, newWidth).widths.Keys == widths.Keys + {column.key}
  {
    var w := ClampedWidth(column, newWidth).value;
    RelayoutKeys(columns, widths, resized, column, w);
    KeptAndAffected(columns, column.key);
    var affectedKeys := KeysOf(Affected(columns, column.key));
    assert affectedKeys <= widths.Keys;
  }

  /** With distinct keys, no kept column shares its key with an affected one. */
  lemma KeptKeysNotAffected(columns: seq<Column>, key: Key)
    requires UniqueKeys(columns)
    ensures forall j :: 0 <= j <= FindIndex(columns, key) ==> columns[j].key !in KeysOf(Affected(columns, key))
  {
    var start := FindIndex(columns, key) + 1;
    var affected := Affected(columns, key);
    assert affected == columns[start..];
  }

  /** A completed resize leaves the widths of the columns before the dragged one unchanged. */
  lemma ResizeKeepsEarlierColumns(columns: seq<Column>, widths: map<Key, real>, resized: set<Key>, column: Column, newWidth: real)
    requires UniqueKeys(columns)
    requires PoolWeighted(columns, resized)
    requires Covers(columns, widths)
    requires Resize(columns, widths, resized, column, newWidth).outcome == Resized
    ensures var r := Resize(columns, widths, resized, column, newWidth);
            forall j :: 0 <= j < FindIndex(columns, column.key) ==>
              columns[j].key in r.widths && r.widths[columns[j].key] == widths[columns[j].key]
  {
    var w := ClampedWidth(column, newWidth).value;
    RelayoutKeys(columns, widths, resized, column, w);
    KeptKeysNotAffected(columns, column.key);
    var idx := FindIndex(columns, column.key);
    forall j | 0 <= j < idx ensures columns[j].key != column.key {
      assert columns[idx].key == column.key;
    }
  }

  /** A completed resize gives the affected columns exactly the widths of the relayout. */
  lemma ResizeRelaysOutAffected(columns: seq<Column>, widths: map<Key, real>, resized: set<Key>, column: Column, newWidth: real)
    requires UniqueKeys(columns)
    requires PoolWeighted(columns, resized)
    requires Covers(columns, widths)
    requires Resize(columns, widths, resized, column, newWidth).outcome == Resized
    ensures var w := ClampedWidth(column, newWidth).value;
            var r := Resize(columns, widths, resized, column, newWidth);
            var built := Relayout(columns, widths, resized, column, w).value;
            forall c :: c in Affected(columns, column.key) ==>
              c.key in built && c.key in r.widths && r.widths[c.key] == built[c.key]
  {
    var w := ClampedWidth(column, newWidth).value;
    RelayoutKeys(columns, widths, resized, column, w);
  }

  /** The relayout gives every resized column among the affected ones its committed width. */
  lemma RelayoutKeepsResized(columns: seq<Column>, widths: map<Key, real>, resized: set<Key>, column: Column, w: real)
    requires UniqueKeys(columns)
    requires PoolWeighted(columns, resized)
    requires Covers(columns, widths)
    requires Relayout(columns, widths, resized, column, w).Ok?
    ensures var built := Relayout(columns, widths, resized, column, w).value;
            var affected := Affected(columns, column.key);
            forall k :: 0 <= k < |affected| && affected[k].key in resized ==>
              affected[k].key in built && built[affected[k].key] == widths[affected[k].key]
  {
    KeptAndAffected(columns, column.key);
    var start := FindIndex(columns, column.key) + 1;
    assert Affected(columns, column.key) == columns[start..];
    AffectedPoolWeighted(columns, resized, column.key);
    BuildWidthsReserved(Affected(columns, column.key), AvailableSpace(columns, widths, column.key, w), resized + {column.key}, widths);
  }

  /**
   * Once resized, a column keeps its committed width when another column is
   * resized: before the dragged column it is left alone, after it the relayout
   * reserves its committed width.
   */
  lemma ResizeKeepsResizedColumns(columns: seq<Column>, widths: map<Key, real>, resized: set<Key>, column: Column, newWidth: real)
    requires UniqueKeys(columns)
    requires PoolWeighted(columns, resized)
    requires Covers(columns, widths)
    requires Resize(columns, widths, resized, column, newWidth).outcome == Resized
    ensures var r := Resize(columns, widths, resized, column, newWidth);
            forall i :: 0 <= i < |columns| && columns[i].key in resized && columns[i].key != column.key ==>
              columns[i].key in r.widths && r.widths[columns[i].key] == widths[columns[i].key]
  {
    var w := ClampedWidth(column, newWidth).value;
    var r := Resize(columns, widths, resized, column, newWidth);
    ResizeKeepsEarlierColumns(columns, widths, resized, column, newWidth);
    RelayoutKeepsResized(columns, widths, resized, column, w);
    ResizeRelaysOutAffected(columns, widths, resized, column, newWidth);
    var start := FindIndex(columns, column.key) + 1;
    var affected := Affected(columns, column.key);
    assert affected == columns[start..];
    forall i | 0 <= i < |columns| && columns[i].key in resized && columns[i].key != column.key
      ensures columns[i].key in r.widths && r.widths[columns[i].key] == widths[columns[i].key]
    {
      if i >= start {
        assert affected[i - start] == columns[i];
        assert columns[i] in affected;
      }
    }
  }

  /**
   * The relayout of a resize, written with the slices and the running space the
   * hook computes; marking the column keeps every pool column weighted.
   */
  lemma RelayoutSteps(columns: seq<Column>, widths: map<Key, real>, resized: set<Key>, column: Column, w: real)
    requires PoolWeighted(columns, resized)
    requires Covers(columns, widths)
    ensures PoolWeighted(columns, resized + {column.key})
    ensures var start := FindIndex(columns, column.key) + 1;
            && PoolWeighted(columns[start..], resized + {column.key})
            && Relayout(columns, widths, resized, column, w)
                 == BuildWidths(columns[start..], SpaceLeft(columns[..start], widths[column.key := w], TableWidth),
                                resized + {column.key}, widths)
  {
    KeptAndAffected(columns, column.key);
    AffectedPoolWeighted(columns, resized, column.key);
  }

  // ---------------------------------------------------------------------------
  // The hook's state
  // ---------------------------------------------------------------------------

  /**
   * The state of `useColumnResizeWidthState` for one list of columns: the
   * committed widths (`columnWidthsRef.current`) and the keys of the columns the
   * user has resized (`resizedColumnsRef.current`, the same set object as the
   * `resizedColumns` state the relayout reads).
   */
  class ColumnResizeState {
    const columns: seq<Column>
    var widths: map<Key, real>
    var resized: set<Key>

    ghost predicate Valid()
      reads this
    {
      && UniqueKeys(columns)
      && PoolWeighted(columns, resized)
      && Covers(columns, widths)
    }

    /** The first render: every column laid out in the whole table, nothing resized. */
    constructor(columns: seq<Column>)
      requires UniqueKeys(columns)
      requires PoolWeighted(columns, {})
      requires BuildWidths(columns, TableWidth, {}, map[]).Ok?
      ensures Valid()
      ensures this.columns == columns
      ensures widths == BuildWidths(columns, TableWidth, {}, map[]).value
      ensures widths.Keys == KeysOf(columns)
      ensures resized == {}
    {
      var initial := BuildColumnWidths(columns, TableWidth, {}, map[]);
      BuildWidthsKeys(columns, TableWidth, {}, map[]);
      this.columns := columns;
      widths := initial.value;
      resized := {};
    }

    /** `getColumnWidth`: the committed width of a column, `None` for an unknown key. */
    function ColumnWidth(key: Key): (r: Option<real>)
      reads this
      ensures r.Some? <==> key in widths
      ensures Valid() && key in KeysOf(columns) ==> r.Some?
    {
      if key in widths then Some(widths[key]) else None
    }

    /**
     * `calculateColumnWidths(column, newWidth)`: clamp the new width, mark the
     * column as resized, lay out the columns after it in the space left, and
     * commit the merged widths.
     */
    method CalculateColumnWidths(column: Column, newWidth: real) returns (outcome: Outcome)
      requires Valid()
      modifies this
      ensures Valid()
      ensures ResizeStep(widths, resized, outcome) == Resize(columns, old(widths), old(resized), column, newWidth)
    {
      var clamped := ClampedWidth(column, newWidth);
      if clamped.Err? {
        return Failed(clamped.error);
      }
      RelayoutSteps(columns, widths, resized, column, clamped.value);
      ghost var relayout := Relayout(columns, widths, resized, column, clamped.value);
      var local := widths[column.key := clamped.value];
      resized := resized + {column.key};
      var resizeIndex := FindIndex(columns, column.key);
      var affectedColumns := columns[resizeIndex + 1..];
      var availableSpace := SpaceLeft(columns[..resizeIndex + 1], local, TableWidth);
      var built := BuildColumnWidths(affectedColumns, availableSpace, resized, widths);
      assert built == relayout;
      if built.Err? {
        return Failed(built.error);
      }
      widths := local + built.value;
      outcome := Resized;
    }
  }
}
