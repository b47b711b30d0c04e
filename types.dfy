/** Values shared by every part of the column-width layout engine. */
module Types {

  /** A possibly absent value; `None` stands for JavaScript's `undefined`/`null`. */
  datatype Option<+T> = None | Some(value: T)

  /**
   * The two ways the layout code fails.
   * UnsupportedWidth: `parseWidth` throws because a string width is not of the form `<digits>%`.
   * TypeError: the JavaScript runtime throws while reading a value of the wrong shape
   * (calling `match` on a number or on `undefined`, or indexing the `null` that a failed
   * `match` returns).
   */
  datatype LayoutError = UnsupportedWidth | TypeError

  /** The result of an operation that may throw one of the errors above. */
  datatype Result<+T> = Ok(value: T) | Err(error: LayoutError) {
    predicate IsFailure() { Err? }

    function PropagateFailure<U>(): Result<U>
      requires Err?
    {
      Err(error)
    }

    function Extract(): T
      requires Ok?
    {
      value
    }
  }

  /** A column key (React keys are compared by identity only). */
  type Key = string

  /** A declared width: a JavaScript `number` or `string`. */
  datatype WidthSpec = Pixels(px: real) | Text(text: string)

  /**
   * The sizing-relevant part of a column node: its key, `props.width`,
   * `props.defaultWidth`, and the node's `minWidth` and `maxWidth`.
   */
  datatype Column = Column(
    key: Key,
    width: Option<WidthSpec>,
    defaultWidth: Option<WidthSpec>,
    minWidth: Option<WidthSpec>,
    maxWidth: Option<WidthSpec>)

  /** The fixed table width every layout is computed against. */
  const TableWidth: real := 800.0

  /** The width of a column that declares neither `width` nor `defaultWidth`. */
  const DefaultWidth: real := 75.0

  /** The minimum width of a column that declares no `minWidth`. */
  const DefaultMinWidth: real := 75.0

  /** True when no two columns share a key. */
  predicate UniqueKeys(columns: seq<Column>)
  {
    forall i, j :: 0 <= i < j < |columns| ==> columns[i].key != columns[j].key
  }

  /** The keys of a list of columns. */
  function KeysOf(columns: seq<Column>): set<Key>
  {
    set c | c in columns :: c.key
  }
}
