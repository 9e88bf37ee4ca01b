/** The loaded restaurant table: which of the expected columns the CSV had,
    and one record per listing whose cells may be missing. */
module Tables {
  import opened Cells

  /** The columns the dashboard reads, by their CSV headers:
      rest_name, name, loc, cuisine, rest_type, Cost (RS), dine_rating,
      delivery_rating, votes, link. */
  datatype Column =
    | RestName | Name | Loc | Cuisine | RestType
    | Cost | DineRating | DeliveryRating | Votes | Link

  datatype Row = Row(
    restName: Option<string>,
    name: Option<string>,
    loc: Option<string>,
    cuisine: Option<string>,
    restType: Option<string>,
    cost: Option<real>,
    dineRating: Option<real>,
    deliveryRating: Option<real>,
    votes: Option<int>,
    link: Option<string>)

  /** A column outside `columns` is absent from the frame; its cells in
      `rows` are never read. */
  datatype Table = Table(columns: set<Column>, rows: seq<Row>)

  /** What pandas raises on the paths the dashboard does not guard:
      `KeyError` for a selection naming absent columns, `ValueError` for
      `int()` of NaN or `idxmax()` of an empty series, `IndexError` for
      the first label of an empty series, `TypeError` for a substring
      search for `None`. */
  datatype Error = KeyError(missing: seq<Column>) | ValueError | IndexError | TypeError

  datatype Result<T> = Ok(value: T) | Err(error: Error)

  /** The outcome of a dashboard section that runs only under an
      `if '<column>' in df` guard. */
  datatype Section<T> = Skipped | Shown(value: T) | Failed(error: Error)

  /** The cell of row `r` in column `c` is not NaN. */
  predicate HasValue(r: Row, c: Column) {
    match c
    case RestName => r.restName.Some?
    case Name => r.name.Some?
    case Loc => r.loc.Some?
    case Cuisine => r.cuisine.Some?
    case RestType => r.restType.Some?
    case Cost => r.cost.Some?
    case DineRating => r.dineRating.Some?
    case DeliveryRating => r.deliveryRating.Some?
    case Votes => r.votes.Some?
    case Link => r.link.Some?
  }

  /** The columns of `wanted` that the table lacks, in the order asked for. */
  function Missing(t: Table, wanted: seq<Column>): (m: seq<Column>)
    ensures forall c :: c in m <==> c in wanted && c !in t.columns
    ensures |m| <= |wanted|
  {
    if wanted == [] then []
    else
      assert wanted == [wanted[0]] + wanted[1..];
      (if wanted[0] in t.columns then [] else [wanted[0]]) + Missing(t, wanted[1..])
  }

  /** `frame[wanted]` on rows drawn from `t`: a KeyError naming the absent
      columns, or the rows themselves (the projection to `wanted` is not
      represented; every record keeps all its cells). */
  function Project(t: Table, rows: seq<Row>, wanted: seq<Column>): (r: Result<seq<Row>>)
    ensures r.Ok? <==> forall c :: c in wanted ==> c in t.columns
    ensures r.Ok? ==> r.value == rows
    ensures r.Err? ==> r.error == KeyError(Missing(t, wanted)) && Missing(t, wanted) != []
  {
    var m := Missing(t, wanted);
    if m == [] then Ok(rows)
    else
      assert m[0] in wanted && m[0] !in t.columns;
      Err(KeyError(m))
  }
}
