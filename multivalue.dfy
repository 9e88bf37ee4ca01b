/** The comma-joined `cuisine` and `rest_type` fields and the analyses
    built on them by split / explode / strip chains. The three chains do
    not agree: the cuisine frequency chart lower-cases and drops empty
    pieces, the cuisine option list keeps case and empty pieces, and the
    restaurant-type averages keep case and empty pieces. */
module MultiValue {
  import opened Cells
  import opened Tables
  import opened Seqs
  import opened Text
  import opened Ranking
  import opened Metrics

  /** `cell.split(",")` followed by `.str.strip()` on every piece. */
  function StrippedPieces(cell: string): seq<string> {
    var parts := Split(cell, ',');
    seq(|parts|, k requires 0 <= k < |parts| => Strip(parts[k]))
  }

  /** Every character of a stripped piece occurs in the cell. */
  lemma StrippedPieceChars(cell: string, piece: string)
    requires piece in StrippedPieces(cell)
    ensures forall ch :: ch in piece ==> ch in cell
  {
    var k :| 0 <= k < |StrippedPieces(cell)| && StrippedPieces(cell)[k] == piece;
    var part := Split(cell, ',')[k];
    var i, j :| 0 <= i <= j <= |part| && piece == part[i..j];
    forall ch | ch in piece ensures ch in cell {
      assert ch in part;
    }
  }

  /** A stripped piece occurs in its cell. */
  lemma StrippedPieceContained(cell: string, piece: string)
    requires piece in StrippedPieces(cell)
    ensures Contains(cell, piece)
  {
    var k :| 0 <= k < |StrippedPieces(cell)| && StrippedPieces(cell)[k] == piece;
    SplitPieceContained(cell, ',', k);
  }

  /** The value of a present cell is the cell of some row. */
  lemma PresentCuisineRow(t: Table, c: string)
    requires c in Present(CuisineCells(t))
    ensures exists i :: 0 <= i < |t.rows| && t.rows[i].cuisine == Some(c)
  {
    var i :| 0 <= i < |CuisineCells(t)| && CuisineCells(t)[i] == Some(c);
    assert t.rows[i].cuisine == Some(c);
  }

  // ---------------------------------------------------------------------
  // value_counts

  /** `value_counts` before sorting: each distinct value once, with the
      number of times it occurs. */
  function Tally<T(==,!new)>(s: seq<T>): (r: seq<(T, nat)>)
    ensures |r| == |Distinct(s)|
    ensures forall i :: 0 <= i < |r| ==> r[i].0 in s && r[i].1 == multiset(s)[r[i].0] && r[i].1 >= 1
    ensures forall x :: x in s ==> exists i :: 0 <= i < |r| && r[i].0 == x
    ensures DistinctKeys(r)
  {
    var d := Distinct(s);
    var r := seq(|d|, i requires 0 <= i < |d| => (d[i], multiset(s)[d[i]]));
    assert forall i :: 0 <= i < |r| ==> r[i].0 == d[i] && d[i] in d;
    assert forall x :: x in s ==> r[IndexIn(d, x)].0 == x;
    r
  }

  function IndexIn<T(==)>(s: seq<T>, x: T): (i: nat)
    requires x in s
    ensures i < |s| && s[i] == x
  {
    if s[0] == x then 0 else 1 + IndexIn(s[1..], x)
  }

  ghost predicate DistinctKeys<T, V>(r: seq<(T, V)>) {
    forall i, j :: 0 <= i < j < |r| ==> r[i].0 != r[j].0
  }

  function CountKey<T>(e: (T, nat)): Option<real> {
    Some(e.1 as real)
  }

  /** Keys of a ranked result. */
  function Keys<T, V>(r: seq<(T, V)>): seq<T> {
    seq(|r|, i requires 0 <= i < |r| => r[i].0)
  }

  /** In a list with distinct keys every entry occurs once. */
  lemma DistinctKeysOnce<T, V>(all: seq<(T, V)>, a: int)
    requires 0 <= a < |all|
    requires DistinctKeys(all)
    ensures multiset(all)[all[a]] == 1
  {
    var x := all[a];
    assert all == all[..a] + [x] + all[a + 1..];
    assert x !in all[..a];
    assert x !in all[a + 1..];
  }

  /** Taking part of a list with distinct keys keeps the keys distinct. */
  lemma SubDistinctKeys<T, V>(r: seq<(T, V)>, all: seq<(T, V)>)
    requires DistinctKeys(all)
    requires multiset(r) <= multiset(all)
    ensures DistinctKeys(r)
  {
    forall i, j | 0 <= i < j < |r| ensures r[i].0 != r[j].0 {
      if r[i].0 == r[j].0 {
        assert r[i] in multiset(all) && r[j] in multiset(all);
        var a :| 0 <= a < |all| && all[a] == r[i];
        var b :| 0 <= b < |all| && all[b] == r[j];
        assert a == b;
        TwiceInMultiset(r, i, j);
        DistinctKeysOnce(all, a);
      }
    }
  }

  lemma TwiceInMultiset<T>(r: seq<T>, i: int, j: int)
    requires 0 <= i < j < |r| && r[i] == r[j]
    ensures multiset(r)[r[i]] >= 2
  {
    assert r == r[..i] + [r[i]] + r[i + 1..j] + [r[j]] + r[j + 1..];
  }

  /** The entries of a list with distinct keys that a part of it lacks
      are exactly those whose key the part lacks. */
  lemma LeftOutEntry<T, V>(r: seq<(T, V)>, all: seq<(T, V)>, a: int)
    requires multiset(r) <= multiset(all)
    requires 0 <= a < |all| && all[a].0 !in Keys(r)
    ensures all[a] in multiset(all) - multiset(r)
  {
    if all[a] in r {
      var b :| 0 <= b < |r| && r[b] == all[a];
      assert Keys(r)[b] == all[a].0;
    }
  }

  /** `value_counts().head(k)`: at most k distinct values with their exact
      counts, in non-increasing order of count, and no value left out
      occurs more often than a value kept. */
  function TopCounts<T(==,!new)>(s: seq<T>, k: nat): (r: seq<(T, nat)>)
    ensures |r| <= k
    ensures |r| == Min(k, |Distinct(s)|)
    ensures forall i :: 0 <= i < |r| ==> r[i].0 in s && r[i].1 == multiset(s)[r[i].0]
    ensures DistinctKeys(r)
    ensures forall i, j :: 0 <= i < j < |r| ==> r[i].1 >= r[j].1
    ensures forall x, i :: x in s && x !in Keys(r) && 0 <= i < |r| ==> multiset(s)[x] <= r[i].1
  {
    var all := Tally(s);
    var r := TopK(all, CountKey, k);
    TopCountsFacts(s, all, r);
    r
  }

  /** What `head(k)` of a descending sort promises about a list with
      distinct keys: the kept entries are entries of the list, their keys
      are distinct, and an entry whose key was left out ranks at or below
      every kept one. */
  lemma TopEntriesFacts<T(!new), V(!new)>(all: seq<(T, V)>, r: seq<(T, V)>, key: ((T, V)) -> Option<real>)
    requires DistinctKeys(all)
    requires multiset(r) <= multiset(all)
    requires forall x, y :: x in multiset(all) - multiset(r) && y in r ==> AtLeast(key(y), key(x))
    ensures forall i :: 0 <= i < |r| ==> r[i] in all
    ensures DistinctKeys(r)
    ensures forall a, i :: 0 <= a < |all| && all[a].0 !in Keys(r) && 0 <= i < |r| ==> AtLeast(key(r[i]), key(all[a]))
  {
    forall i | 0 <= i < |r| ensures r[i] in all {
      assert r[i] in multiset(r);
    }
    SubDistinctKeys(r, all);
    forall a, i | 0 <= a < |all| && all[a].0 !in Keys(r) && 0 <= i < |r| ensures AtLeast(key(r[i]), key(all[a])) {
      LeftOutEntry(r, all, a);
      assert r[i] in r;
    }
  }

  lemma TopCountsFacts<T(!new)>(s: seq<T>, all: seq<(T, nat)>, r: seq<(T, nat)>)
    requires forall i :: 0 <= i < |all| ==> all[i].0 in s && all[i].1 == multiset(s)[all[i].0]
    requires forall x :: x in s ==> exists i :: 0 <= i < |all| && all[i].0 == x
    requires DistinctKeys(all)
    requires multiset(r) <= multiset(all)
    requires NonIncreasing(r, CountKey)
    requires forall x, y :: x in multiset(all) - multiset(r) && y in r ==> AtLeast(CountKey(y), CountKey(x))
    ensures forall i :: 0 <= i < |r| ==> r[i].0 in s && r[i].1 == multiset(s)[r[i].0]
    ensures DistinctKeys(r)
    ensures forall i, j :: 0 <= i < j < |r| ==> r[i].1 >= r[j].1
    ensures forall x, i :: x in s && x !in Keys(r) && 0 <= i < |r| ==> multiset(s)[x] <= r[i].1
  {
    TopEntriesFacts(all, r, CountKey);
    forall i, j | 0 <= i < j < |r| ensures r[i].1 >= r[j].1 {
      assert AtLeast(CountKey(r[i]), CountKey(r[j]));
    }
    forall x, i | x in s && x !in Keys(r) && 0 <= i < |r| ensures multiset(s)[x] <= r[i].1 {
      var a :| 0 <= a < |all| && all[a].0 == x;
      assert AtLeast(CountKey(r[i]), CountKey(all[a]));
    }
  }

  // ---------------------------------------------------------------------
  // Cuisine frequency chart: dropna, lower, split(","), explode, strip,
  // drop "", value_counts().head(15)

  /** The stripped pieces of one cuisine cell after lower-casing it. */
  function LoweredPieces(cell: string): seq<string> {
    StrippedPieces(Lower(cell))
  }

  /** One list of lowered pieces per non-missing cuisine cell. */
  function CuisinePieceRows(t: Table): seq<seq<string>> {
    var cells := Present(CuisineCells(t));
    seq(|cells|, i requires 0 <= i < |cells| => LoweredPieces(cells[i]))
  }

  predicate NonEmpty(piece: string) {
    piece != []
  }

  /** `cuisines_cleaned`: the exploded, stripped, lower-cased pieces with
      the empty ones dropped, in row order. */
  function CleanedCuisines(t: Table): seq<string> {
    Filter(Flatten(CuisinePieceRows(t)), NonEmpty)
  }

  /** The "Cuisine Frequency (Top 15)" chart: skipped without `cuisine`,
      never failing, empty exactly when no cleaned piece is left (the
      "No cuisine data available" branch of line 196). */
  function CuisineFrequency(t: Table): (r: Section<seq<(string, nat)>>)
    ensures r.Skipped? <==> Cuisine !in t.columns
    ensures !r.Failed?
    ensures r.Shown? ==> |r.value| <= 15 && (r.value == [] <==> CleanedCuisines(t) == [])
  {
    var c := CleanedCuisines(t);
    assert c != [] ==> c[0] in Distinct(c);
    if Cuisine in t.columns then Shown(TopCounts(c, 15)) else Skipped
  }

  /** A piece of a lower-cased cell is itself lower-case. */
  lemma LoweredPieceIsLower(cell: string, piece: string)
    requires piece in LoweredPieces(cell)
    ensures Lower(piece) == piece
  {
    StrippedPieceChars(Lower(cell), piece);
    forall k | 0 <= k < |piece| ensures LowerChar(piece[k]) == piece[k] {
      assert piece[k] in Lower(cell);
    }
  }

  lemma CuisinePieceOrigin(t: Table, piece: string)
    requires piece in Flatten(CuisinePieceRows(t))
    ensures exists j :: 0 <= j < |t.rows| && t.rows[j].cuisine.Some?
                        && piece in LoweredPieces(t.rows[j].cuisine.value)
  {
    var rows := CuisinePieceRows(t);
    var cells := Present(CuisineCells(t));
    FlattenMember(rows, piece);
    var i :| 0 <= i < |rows| && piece in rows[i];
    assert piece in LoweredPieces(cells[i]);
    PresentCuisineRow(t, cells[i]);
  }

  /** A piece of the cleaned cuisine column is a non-empty, lower-case,
      stripped piece of some non-missing cuisine cell, and its count is its
      total number of occurrences over all rows. */
  lemma CleanedCuisinePiece(t: Table, piece: string)
    requires piece in CleanedCuisines(t)
    ensures piece != []
    ensures Lower(piece) == piece
    ensures exists j :: 0 <= j < |t.rows| && t.rows[j].cuisine.Some?
                        && piece in LoweredPieces(t.rows[j].cuisine.value)
    ensures multiset(CleanedCuisines(t))[piece] == Occurrences(CuisinePieceRows(t), piece)
  {
    var flat := Flatten(CuisinePieceRows(t));
    assert NonEmpty(piece);
    assert multiset(CleanedCuisines(t))[piece] == multiset(flat)[piece];
    assert piece in flat by {
      assert piece in multiset(CleanedCuisines(t));
    }
    CuisinePieceOrigin(t, piece);
    var j :| 0 <= j < |t.rows| && t.rows[j].cuisine.Some?
             && piece in LoweredPieces(t.rows[j].cuisine.value);
    LoweredPieceIsLower(t.rows[j].cuisine.value, piece);
    FlattenCount(CuisinePieceRows(t), piece);
  }

  /** The cuisine frequency chart: at most 15 distinct cleaned pieces
      (15 when there are that many), each with its exact count, in
      non-increasing order of count; no piece left off the chart occurs
      more often than one on it. */
  lemma CuisineFrequencySpec(t: Table)
    requires Cuisine in t.columns
    ensures CuisineFrequency(t).Shown?
    ensures var r := CuisineFrequency(t).value;
      && |r| <= 15
      && |r| == Min(15, |Distinct(CleanedCuisines(t))|)
      && DistinctKeys(r)
      && (forall i :: 0 <= i < |r| ==>
            && r[i].0 != [] && Lower(r[i].0) == r[i].0
            && (exists j :: 0 <= j < |t.rows| && t.rows[j].cuisine.Some?
                            && r[i].0 in LoweredPieces(t.rows[j].cuisine.value))
            && r[i].1 == Occurrences(CuisinePieceRows(t), r[i].0))
      && (forall i, j :: 0 <= i < j < |r| ==> r[i].1 >= r[j].1)
      && (forall p, i :: p in CleanedCuisines(t) && p !in Keys(r) && 0 <= i < |r| ==>
            Occurrences(CuisinePieceRows(t), p) <= r[i].1)
  {
    var r := CuisineFrequency(t).value;
    forall i | 0 <= i < |r| ensures r[i].0 in CleanedCuisines(t) {
    }
    forall p | p in CleanedCuisines(t) {
      CleanedCuisinePiece(t, p);
    }
  }

  // ---------------------------------------------------------------------
  // Cuisine option list: dropna, split(","), explode, strip, unique, sorted

  /** One list of stripped pieces (case kept) per non-missing cuisine cell. */
  function OptionPieceRows(t: Table): seq<seq<string>> {
    var cells := Present(CuisineCells(t));
    seq(|cells|, i requires 0 <= i < |cells| => StrippedPieces(cells[i]))
  }

  ghost predicate StrictlyAscending(s: seq<string>) {
    forall i, j :: 0 <= i < j < |s| ==> LexLess(s[i], s[j])
  }

  function InsertString(x: string, s: seq<string>): (r: seq<string>)
    requires StrictlyAscending(s) && x !in s
    ensures |r| == |s| + 1
    ensures forall y :: y in r <==> y == x || y in s
    ensures StrictlyAscending(r)
  {
    if s == [] then [x]
    else if LexLess(x, s[0]) then
      assert forall j :: 0 <= j < |s| ==> LexLess(x, s[j]) by {
        forall j | 0 <= j < |s| ensures LexLess(x, s[j]) {
          if j > 0 { LexLessTransitive(x, s[0], s[j]); }
        }
      }
      AscendingCons(x, s);
      [x] + s
    else
      LexLessTotal(x, s[0]);
      var rest := InsertString(x, s[1..]);
      assert forall y :: y in s <==> y == s[0] || y in s[1..] by {
        assert s == [s[0]] + s[1..];
      }
      assert forall j :: 0 <= j < |rest| ==> LexLess(s[0], rest[j]) by {
        forall j | 0 <= j < |rest| ensures LexLess(s[0], rest[j]) {
          assert rest[j] in rest;
          if rest[j] != x {
            var k :| 0 <= k < |s| - 1 && s[1..][k] == rest[j];
            assert s[k + 1] == rest[j];
          }
        }
      }
      AscendingCons(s[0], rest);
      [s[0]] + rest
  }

  lemma AscendingCons(x: string, s: seq<string>)
    requires StrictlyAscending(s)
    requires forall j :: 0 <= j < |s| ==> LexLess(x, s[j])
    ensures StrictlyAscending([x] + s)
  {
    var r := [x] + s;
    forall i, j | 0 <= i < j < |r| ensures LexLess(r[i], r[j]) {
      if i > 0 { assert r[i] == s[i - 1] && r[j] == s[j - 1]; }
    }
  }

  /** Python's `sorted` on distinct strings: the same strings in strictly
      ascending code-point order. */
  function SortStrings(s: seq<string>): (r: seq<string>)
    requires forall i, j :: 0 <= i < j < |s| ==> s[i] != s[j]
    ensures |r| == |s|
    ensures forall y :: y in r <==> y in s
    ensures StrictlyAscending(r)
  {
    if s == [] then []
    else
      assert forall y :: y in s <==> y == s[0] || y in s[1..] by {
        assert s == [s[0]] + s[1..];
      }
      InsertString(s[0], SortStrings(s[1..]))
  }

  /** `sorted(all_cuisines)`: every stripped comma piece of a non-missing
      cuisine cell, case kept and empty pieces included, once each, in
      strictly ascending order. */
  function CuisineOptions(t: Table): (r: seq<string>)
    ensures StrictlyAscending(r)
    ensures forall x :: x in r <==> exists j :: 0 <= j < |t.rows| && t.rows[j].cuisine.Some?
                                               && x in StrippedPieces(t.rows[j].cuisine.value)
  {
    var r := SortStrings(Distinct(Flatten(OptionPieceRows(t))));
    forall x ensures x in r <==> x in Flatten(OptionPieceRows(t)) {
    }
    OptionPieceOrigin(t);
    r
  }

  /** The option list is empty exactly when every cuisine cell is missing:
      a present cell, even an empty one, gives at least one piece. */
  lemma OptionsEmptyIff(t: Table)
    ensures CuisineOptions(t) == [] <==> forall j :: 0 <= j < |t.rows| ==> t.rows[j].cuisine.None?
  {
    var r := CuisineOptions(t);
    if r != [] {
      assert r[0] in r;
    }
    if exists j :: 0 <= j < |t.rows| && t.rows[j].cuisine.Some? {
      var j :| 0 <= j < |t.rows| && t.rows[j].cuisine.Some?;
      var pieces := StrippedPieces(t.rows[j].cuisine.value);
      assert pieces[0] in pieces;
      assert pieces[0] in r;
    }
  }

  /** A piece is among the exploded option pieces exactly when it is a
      stripped piece of some present cuisine cell. */
  lemma OptionPieceOrigin(t: Table)
    ensures forall x :: x in Flatten(OptionPieceRows(t)) <==>
              exists j :: 0 <= j < |t.rows| && t.rows[j].cuisine.Some?
                          && x in StrippedPieces(t.rows[j].cuisine.value)
  {
    forall x | x in Flatten(OptionPieceRows(t))
      ensures exists j :: 0 <= j < |t.rows| && t.rows[j].cuisine.Some?
                          && x in StrippedPieces(t.rows[j].cuisine.value)
    {
      OptionPieceFromRow(t, x);
    }
    forall x, j | 0 <= j < |t.rows| && t.rows[j].cuisine.Some? && x in StrippedPieces(t.rows[j].cuisine.value)
      ensures x in Flatten(OptionPieceRows(t))
    {
      OptionPieceOfRow(t, x, j);
    }
  }

  lemma OptionPieceFromRow(t: Table, x: string)
    requires x in Flatten(OptionPieceRows(t))
    ensures exists j :: 0 <= j < |t.rows| && t.rows[j].cuisine.Some?
                        && x in StrippedPieces(t.rows[j].cuisine.value)
  {
    var rows := OptionPieceRows(t);
    var cells := Present(CuisineCells(t));
    FlattenMember(rows, x);
    var i :| 0 <= i < |rows| && x in rows[i];
    PresentCuisineRow(t, cells[i]);
  }

  lemma OptionPieceOfRow(t: Table, x: string, j: int)
    requires 0 <= j < |t.rows| && t.rows[j].cuisine.Some?
    requires x in StrippedPieces(t.rows[j].cuisine.value)
    ensures x in Flatten(OptionPieceRows(t))
  {
    var rows := OptionPieceRows(t);
    var cells := Present(CuisineCells(t));
    assert CuisineCells(t)[j] == t.rows[j].cuisine;
    var c := t.rows[j].cuisine.value;
    assert c in cells;
    var i :| 0 <= i < |cells| && cells[i] == c;
    assert x in rows[i];
    FlattenMember(rows, x);
  }

  // ---------------------------------------------------------------------
  // Average cost by restaurant type: dropna on (rest_type, Cost (RS)),
  // split(","), explode, strip, groupby mean, descending, head(10)

  /** A row that survives `df[['rest_type', 'Cost (RS)']].dropna()`. */
  predicate Contributes(r: Row) {
    r.restType.Some? && r.cost.Some?
  }

  /** The exploded (type, cost) pairs of one contributing row: one pair per
      stripped piece, empty pieces and repeats included. */
  function TypeCostPairsOf(r: Row): seq<(string, real)>
    requires Contributes(r)
  {
    PairsWith(StrippedPieces(r.restType.value), r.cost.value)
  }

  /** Each piece paired with the same value. */
  function PairsWith(pieces: seq<string>, v: real): seq<(string, real)> {
    seq(|pieces|, k requires 0 <= k < |pieces| => (pieces[k], v))
  }

  function TypeCostRows(rows: seq<Row>): seq<seq<(string, real)>> {
    if rows == [] then []
    else (if Contributes(rows[0]) then [TypeCostPairsOf(rows[0])] else []) + TypeCostRows(rows[1..])
  }

  /** The exploded `rest_df`. */
  function TypeCostPairs(t: Table): seq<(string, real)> {
    Flatten(TypeCostRows(t.rows))
  }

  /** Every exploded pair comes from a row with both cells present: its
      type is a stripped piece of that row's `rest_type` and its cost is
      that row's cost. */
  lemma {:induction false} TypeCostPairOrigin(rows: seq<Row>, p: (string, real))
    requires p in Flatten(TypeCostRows(rows))
    ensures exists j :: 0 <= j < |rows| && Contributes(rows[j])
                        && p.0 in StrippedPieces(rows[j].restType.value)
                        && rows[j].cost == Some(p.1)
  {
    if rows != [] {
      var tail := TypeCostRows(rows[1..]);
      var inTail := p in Flatten(tail);
      if Contributes(rows[0]) {
        var own := TypeCostPairsOf(rows[0]);
        assert TypeCostRows(rows) == [own] + tail;
        FlattenAppend([own], tail);
        assert Flatten([own]) == own + [];
        if p in own {
          PairOfRow(rows[0], p);
        }
      } else {
        assert TypeCostRows(rows) == tail;
      }
      if inTail {
        TypeCostPairOrigin(rows[1..], p);
        var j :| 0 <= j < |rows[1..]| && Contributes(rows[1..][j])
                 && p.0 in StrippedPieces(rows[1..][j].restType.value)
                 && rows[1..][j].cost == Some(p.1);
        assert rows[j + 1] == rows[1..][j];
      }
    }
  }

  lemma PairOfRow(r: Row, p: (string, real))
    requires Contributes(r) && p in TypeCostPairsOf(r)
    ensures p.0 in StrippedPieces(r.restType.value) && r.cost == Some(p.1)
  {
    var k :| 0 <= k < |TypeCostPairsOf(r)| && TypeCostPairsOf(r)[k] == p;
    assert p.0 == StrippedPieces(r.restType.value)[k];
  }


  /** Every stripped piece of a row with both cells present is exploded
      into a pair with that row's cost. */
  lemma TypeCostPairOfRow(rows: seq<Row>, j: int, piece: string)
    requires 0 <= j < |rows| && Contributes(rows[j])
    requires piece in StrippedPieces(rows[j].restType.value)
    ensures (piece, rows[j].cost.value) in Flatten(TypeCostRows(rows))
  {
    PieceInOwnPairs(rows[j], piece);
    RowPairsExploded(rows, j, (piece, rows[j].cost.value));
  }

  /** Every pair of a contributing row is in the exploded list. */
  lemma RowPairsExploded(rows: seq<Row>, j: int, p: (string, real))
    requires 0 <= j < |rows| && Contributes(rows[j]) && p in TypeCostPairsOf(rows[j])
    ensures p in Flatten(TypeCostRows(rows))
  {
    var i := RowListed(rows, j);
    FlattenMember(TypeCostRows(rows), p);
  }

  /** The position, among the exploded rows, of contributing row `j`. */
  lemma {:induction false} RowListed(rows: seq<Row>, j: int) returns (i: int)
    requires 0 <= j < |rows| && Contributes(rows[j])
    ensures 0 <= i < |TypeCostRows(rows)| && TypeCostRows(rows)[i] == TypeCostPairsOf(rows[j])
  {
    var tail := TypeCostRows(rows[1..]);
    if j == 0 {
      assert TypeCostRows(rows) == [TypeCostPairsOf(rows[0])] + tail;
      i := 0;
    } else {
      assert rows[1..][j - 1] == rows[j];
      var k := RowListed(rows[1..], j - 1);
      if Contributes(rows[0]) {
        assert TypeCostRows(rows) == [TypeCostPairsOf(rows[0])] + tail;
        i := k + 1;
      } else {
        assert TypeCostRows(rows) == tail;
        i := k;
      }
    }
  }

  lemma PieceInOwnPairs(r: Row, piece: string)
    requires Contributes(r) && piece in StrippedPieces(r.restType.value)
    ensures (piece, r.cost.value) in TypeCostPairsOf(r)
  {
    var pieces := StrippedPieces(r.restType.value);
    var k :| 0 <= k < |pieces| && pieces[k] == piece;
    assert TypeCostPairsOf(r)[k] == (piece, r.cost.value);
  }

  /** Reference count of type `k`: over the rows with both cells present,
      the number of stripped pieces equal to `k`, repeats included. */
  function TypeCount(rows: seq<Row>, k: string): nat {
    if rows == [] then 0
    else
      (if Contributes(rows[0]) then multiset(StrippedPieces(rows[0].restType.value))[k] else 0)
      + TypeCount(rows[1..], k)
  }

  /** Reference cost total of type `k`: each row's cost once per piece of
      its type cell equal to `k`. */
  function TypeCostSum(rows: seq<Row>, k: string): real {
    if rows == [] then 0.0
    else
      (if Contributes(rows[0])
       then Times(multiset(StrippedPieces(rows[0].restType.value))[k], rows[0].cost.value)
       else 0.0)
      + TypeCostSum(rows[1..], k)
  }

  /** The exploded pairs of a type number and add up exactly as the rows
      say: a row contributes its cost once per repetition of the type in
      its cell. */
  lemma {:induction false} TypeCostTotals(rows: seq<Row>, k: string)
    ensures CountFor(Flatten(TypeCostRows(rows)), k) == TypeCount(rows, k)
    ensures SumFor(Flatten(TypeCostRows(rows)), k) == TypeCostSum(rows, k)
  {
    if rows != [] {
      TypeCostTotals(rows[1..], k);
      var tail := TypeCostRows(rows[1..]);
      if Contributes(rows[0]) {
        var own := TypeCostPairsOf(rows[0]);
        RowPairsFirst(rows, k);
        PairsForAppend(own, Flatten(tail), k);
        PairsWithTotals(StrippedPieces(rows[0].restType.value), rows[0].cost.value, k);
      } else {
        assert TypeCostRows(rows) == tail;
      }
    }
  }

  lemma RowPairsFirst(rows: seq<Row>, k: string)
    requires rows != [] && Contributes(rows[0])
    ensures Flatten(TypeCostRows(rows)) == TypeCostPairsOf(rows[0]) + Flatten(TypeCostRows(rows[1..]))
  {
    var own := TypeCostPairsOf(rows[0]);
    var tail := TypeCostRows(rows[1..]);
    assert TypeCostRows(rows) == [own] + tail;
    FlattenAppend([own], tail);
    assert Flatten([own]) == own + [];
  }

  lemma {:induction false} PairsForAppend(a: seq<(string, real)>, b: seq<(string, real)>, k: string)
    ensures CountFor(a + b, k) == CountFor(a, k) + CountFor(b, k)
    ensures SumFor(a + b, k) == SumFor(a, k) + SumFor(b, k)
  {
    if a == [] {
      assert a + b == b;
    } else {
      assert (a + b)[1..] == a[1..] + b;
      PairsForAppend(a[1..], b, k);
    }
  }

  lemma {:induction false} PairsWithTotals(pieces: seq<string>, v: real, k: string)
    ensures CountFor(PairsWith(pieces, v), k) == multiset(pieces)[k]
    ensures SumFor(PairsWith(pieces, v), k) == Times(multiset(pieces)[k], v)
  {
    var ps := PairsWith(pieces, v);
    if pieces != [] {
      PairsWithTotals(pieces[1..], v, k);
      assert ps[1..] == PairsWith(pieces[1..], v);
      assert pieces == [pieces[0]] + pieces[1..];
    }
  }

  /** `v` added `n` times. */
  function Times(n: nat, v: real): (r: real)
    ensures r == n as real * v
  {
    if n == 0 then 0.0 else Times(n - 1, v) + v
  }

  /** Number of pairs with key `k`. */
  function CountFor(pairs: seq<(string, real)>, k: string): nat {
    if pairs == [] then 0 else (if pairs[0].0 == k then 1 else 0) + CountFor(pairs[1..], k)
  }

  /** Sum of the values of the pairs with key `k`. */
  function SumFor(pairs: seq<(string, real)>, k: string): real {
    if pairs == [] then 0.0 else (if pairs[0].0 == k then pairs[0].1 else 0.0) + SumFor(pairs[1..], k)
  }

  lemma {:induction false} CountForPositive(pairs: seq<(string, real)>, k: string)
    requires exists i :: 0 <= i < |pairs| && pairs[i].0 == k
    ensures CountFor(pairs, k) >= 1
  {
    if pairs[0].0 != k {
      var i :| 0 <= i < |pairs| && pairs[i].0 == k;
      assert pairs[1..][i - 1].0 == k;
      CountForPositive(pairs[1..], k);
    }
  }

  /** The sum over a group lies between its size times the smallest and
      its size times the largest value in it. */
  lemma {:induction false} SumForBounds(pairs: seq<(string, real)>, k: string, lo: real, hi: real)
    requires forall i :: 0 <= i < |pairs| && pairs[i].0 == k ==> lo <= pairs[i].1 <= hi
    ensures CountFor(pairs, k) as real * lo <= SumFor(pairs, k) <= CountFor(pairs, k) as real * hi
  {
    if pairs != [] {
      assert forall i :: 0 <= i < |pairs[1..]| ==> pairs[1..][i] == pairs[i + 1];
      SumForBounds(pairs[1..], k, lo, hi);
      var n := CountFor(pairs[1..], k) as real;
      if pairs[0].0 == k {
        assert CountFor(pairs, k) as real == n + 1.0;
        assert (n + 1.0) * lo == n * lo + lo;
        assert (n + 1.0) * hi == n * hi + hi;
      }
    }
  }

  /** A group's mean lies between the smallest and largest value in it. */
  lemma MeanBetween(pairs: seq<(string, real)>, k: string, lo: real, hi: real)
    requires CountFor(pairs, k) >= 1
    requires forall i :: 0 <= i < |pairs| && pairs[i].0 == k ==> lo <= pairs[i].1 <= hi
    ensures lo <= SumFor(pairs, k) / CountFor(pairs, k) as real <= hi
  {
    SumForBounds(pairs, k, lo, hi);
    QuotientBetween(SumFor(pairs, k), CountFor(pairs, k) as real, lo, hi);
  }

  lemma QuotientBetween(s: real, n: real, lo: real, hi: real)
    requires n > 0.0 && n * lo <= s <= n * hi
    ensures lo <= s / n <= hi
  {
    var m := s / n;
    assert m * n == s;
    assert n * lo <= n * m <= n * hi;
  }

  lemma KeysMember<T, V>(pairs: seq<(T, V)>, k: T)
    ensures k in Keys(pairs) <==> exists j :: 0 <= j < |pairs| && pairs[j].0 == k
  {
    if k in Keys(pairs) {
      var j :| 0 <= j < |pairs| && Keys(pairs)[j] == k;
    }
    if exists j :: 0 <= j < |pairs| && pairs[j].0 == k {
      var j :| 0 <= j < |pairs| && pairs[j].0 == k;
      assert Keys(pairs)[j] == k;
    }
  }

  function MeanOf(pairs: seq<(string, real)>, k: string): real {
    var n := CountFor(pairs, k);
    SumFor(pairs, k) / (if n == 0 then 1.0 else n as real)
  }

  /** One entry per distinct key, in order of first occurrence. */
  function GroupEntries(pairs: seq<(string, real)>): seq<(string, real)> {
    var ks := Distinct(Keys(pairs));
    seq(|ks|, i requires 0 <= i < |ks| => (ks[i], MeanOf(pairs, ks[i])))
  }

  /** `groupby(key).mean()` before sorting: each distinct key once, with the
      exact mean of the values paired with it. */
  function GroupMeans(pairs: seq<(string, real)>): (r: seq<(string, real)>)
    ensures |r| == |Distinct(Keys(pairs))|
    ensures DistinctKeys(r)
    ensures forall i :: 0 <= i < |r| ==>
              && (exists j :: 0 <= j < |pairs| && pairs[j].0 == r[i].0)
              && CountFor(pairs, r[i].0) >= 1
              && r[i].1 == SumFor(pairs, r[i].0) / CountFor(pairs, r[i].0) as real
    ensures forall j :: 0 <= j < |pairs| ==> pairs[j].0 in Keys(r)
  {
    GroupEntriesDistinct(pairs);
    GroupEntriesMeans(pairs);
    GroupEntriesCover(pairs);
    GroupEntries(pairs)
  }

  lemma GroupEntriesDistinct(pairs: seq<(string, real)>)
    ensures DistinctKeys(GroupEntries(pairs))
  {
    var ks := Distinct(Keys(pairs));
    var r := GroupEntries(pairs);
    assert forall i :: 0 <= i < |r| ==> r[i].0 == ks[i];
  }

  lemma GroupEntriesMeans(pairs: seq<(string, real)>)
    ensures var r := GroupEntries(pairs);
      forall i :: 0 <= i < |r| ==>
        && (exists j :: 0 <= j < |pairs| && pairs[j].0 == r[i].0)
        && CountFor(pairs, r[i].0) >= 1
        && r[i].1 == SumFor(pairs, r[i].0) / CountFor(pairs, r[i].0) as real
  {
    var ks := Distinct(Keys(pairs));
    var r := GroupEntries(pairs);
    forall i | 0 <= i < |r|
      ensures && (exists j :: 0 <= j < |pairs| && pairs[j].0 == r[i].0)
              && CountFor(pairs, r[i].0) >= 1
              && r[i].1 == SumFor(pairs, r[i].0) / CountFor(pairs, r[i].0) as real
    {
      assert r[i] == (ks[i], MeanOf(pairs, ks[i]));
      GroupEntry(pairs, ks, i);
    }
  }

  lemma GroupEntriesCover(pairs: seq<(string, real)>)
    ensures forall j :: 0 <= j < |pairs| ==> pairs[j].0 in Keys(GroupEntries(pairs))
  {
    var ks := Distinct(Keys(pairs));
    var r := GroupEntries(pairs);
    forall j | 0 <= j < |pairs| ensures pairs[j].0 in Keys(r) {
      KeysMember(pairs, pairs[j].0);
      var i := IndexIn(ks, pairs[j].0);
      assert r[i].0 == ks[i];
      assert Keys(r)[i] == pairs[j].0;
    }
  }

  lemma GroupEntry(pairs: seq<(string, real)>, ks: seq<string>, i: int)
    requires ks == Distinct(Keys(pairs))
    requires 0 <= i < |ks|
    ensures exists j :: 0 <= j < |pairs| && pairs[j].0 == ks[i]
    ensures CountFor(pairs, ks[i]) >= 1
    ensures MeanOf(pairs, ks[i]) == SumFor(pairs, ks[i]) / CountFor(pairs, ks[i]) as real
  {
    assert ks[i] in ks;
    KeysMember(pairs, ks[i]);
    CountForPositive(pairs, ks[i]);
  }

  function MeanKey(e: (string, real)): Option<real> {
    Some(e.1)
  }

  /** The restaurant-type chart: skipped without both columns; `idxmax()`
      on an empty result at line 130 raises ValueError. */
  function RestTypeAvgCost(t: Table): (r: Section<seq<(string, real)>>)
    ensures r.Skipped? <==> !(Cost in t.columns && RestType in t.columns)
    ensures r.Failed? ==> r.error == ValueError
    ensures r.Shown? ==> 1 <= |r.value| <= 10
  {
    if Cost in t.columns && RestType in t.columns then
      var r := TopK(GroupMeans(TypeCostPairs(t)), MeanKey, 10);
      if r == [] then Failed(ValueError) else Shown(r)
    else Skipped
  }

  /** The restaurant-type chart, when shown, lists min(10, #types)
      distinct types in non-increasing order of mean cost. */
  lemma RestTypeAvgCostRanked(t: Table)
    requires RestTypeAvgCost(t).Shown?
    ensures var r := RestTypeAvgCost(t).value;
      && Cost in t.columns && RestType in t.columns
      && 1 <= |r| == Min(10, |Distinct(Keys(TypeCostPairs(t)))|)
      && DistinctKeys(r)
      && (forall i, j :: 0 <= i < j < |r| ==> r[i].1 >= r[j].1)
  {
    var all := GroupMeans(TypeCostPairs(t));
    assert RestTypeAvgCost(t).value == TopK(all, MeanKey, 10);
    TopMeansRanked(all, 10);
  }

  /** `sort_values(ascending=False).head(k)` of a list of means with
      distinct keys keeps the keys distinct and orders the means. */
  lemma TopMeansRanked(all: seq<(string, real)>, k: nat)
    requires DistinctKeys(all)
    ensures var r := TopK(all, MeanKey, k);
      && DistinctKeys(r)
      && (forall i, j :: 0 <= i < j < |r| ==> r[i].1 >= r[j].1)
  {
    var r := TopK(all, MeanKey, k);
    SubDistinctKeys(r, all);
    forall i, j | 0 <= i < j < |r| ensures r[i].1 >= r[j].1 {
      assert AtLeast(MeanKey(r[i]), MeanKey(r[j]));
    }
  }


  /** Each listed type is a stripped piece of the `rest_type` cell of a row
      whose cost is present, and its value is the mean cost over all
      exploded pairs of that type: a type repeated within one cell counts
      once per repetition. */
  lemma RestTypeAvgCostEntry(t: Table, i: int)
    requires RestTypeAvgCost(t).Shown?
    requires 0 <= i < |RestTypeAvgCost(t).value|
    ensures var r := RestTypeAvgCost(t).value; var pairs := TypeCostPairs(t);
      && (exists j :: 0 <= j < |t.rows| && Contributes(t.rows[j])
                      && r[i].0 in StrippedPieces(t.rows[j].restType.value))
      && CountFor(pairs, r[i].0) >= 1
      && r[i].1 == SumFor(pairs, r[i].0) / CountFor(pairs, r[i].0) as real
      && TypeCount(t.rows, r[i].0) >= 1
      && r[i].1 == TypeCostSum(t.rows, r[i].0) / TypeCount(t.rows, r[i].0) as real
  {
    var pairs := TypeCostPairs(t);
    var all := GroupMeans(pairs);
    var r := RestTypeAvgCost(t).value;
    assert r[i] in multiset(r);
    var a :| 0 <= a < |all| && all[a] == r[i];
    var j :| 0 <= j < |pairs| && pairs[j].0 == all[a].0;
    assert pairs[j] in pairs;
    TypeCostPairOrigin(t.rows, pairs[j]);
    TypeCostTotals(t.rows, r[i].0);
  }

  /** With both columns present the chart fails, with the ValueError of
      `idxmax()` at line 130, exactly when no row has both its type and
      its cost present. */
  lemma RestTypeAvgCostFails(t: Table)
    requires Cost in t.columns && RestType in t.columns
    ensures RestTypeAvgCost(t).Failed? <==> forall j :: 0 <= j < |t.rows| ==> !Contributes(t.rows[j])
    ensures RestTypeAvgCost(t).Failed? ==> RestTypeAvgCost(t).error == ValueError
  {
    var pairs := TypeCostPairs(t);
    var ks := Distinct(Keys(pairs));
    assert RestTypeAvgCost(t).Failed? <==> ks == [];
    if pairs != [] {
      assert pairs[0] in pairs;
      TypeCostPairOrigin(t.rows, pairs[0]);
      assert Keys(pairs)[0] in Keys(pairs);
      assert Keys(pairs)[0] in ks;
    }
    if exists j :: 0 <= j < |t.rows| && Contributes(t.rows[j]) {
      var j :| 0 <= j < |t.rows| && Contributes(t.rows[j]);
      var pieces := StrippedPieces(t.rows[j].restType.value);
      assert pieces[0] in pieces;
      TypeCostPairOfRow(t.rows, j, pieces[0]);
    }
  }

  /** A listing of the given type and cost; every other cell missing. */
  function TypedListing(restType: string, cost: real): Row {
    Row(None, None, None, None, Some(restType), Some(cost), None, None, None, None)
  }

  /** "A, A" at 100 and "A" at 400 explode into three pairs of type "A",
      so the chart shows "A" at (100 + 100 + 400) / 3 = 200. */
  lemma RepeatedTypeCountsTwice()
    ensures RestTypeAvgCost(Table({RestType, Cost}, [TypedListing("A, A", 100.0), TypedListing("A", 400.0)]))
            == Shown([("A", 200.0)])
  {
    var t := Table({RestType, Cost}, [TypedListing("A, A", 100.0), TypedListing("A", 400.0)]);
    RepeatedTypePairs(t);
    RepeatedTypeMeans();
    TopKSingleton(("A", 200.0), MeanKey, 10);
  }

  lemma RepeatedTypeMeans()
    ensures GroupMeans([("A", 100.0), ("A", 100.0), ("A", 400.0)]) == [("A", 200.0)]
  {
    var pairs := [("A", 100.0), ("A", 100.0), ("A", 400.0)];
    RepeatedTypeKeys(pairs);
    RepeatedTypeTotals(pairs);
    assert MeanOf(pairs, "A") == 200.0;
    var g := GroupEntries(pairs);
    assert |g| == 1 && g[0] == ("A", MeanOf(pairs, "A"));
  }

  lemma RepeatedTypeKeys(pairs: seq<(string, real)>)
    requires pairs == [("A", 100.0), ("A", 100.0), ("A", 400.0)]
    ensures Distinct(Keys(pairs)) == ["A"]
  {
    var ks := Keys(pairs);
    assert ks == ["A", "A", "A"];
    assert ks[..2] == ["A", "A"] && ks[..2][..1] == ["A"] && ks[..2][..1][..0] == [];
  }

  lemma RepeatedTypeTotals(pairs: seq<(string, real)>)
    requires pairs == [("A", 100.0), ("A", 100.0), ("A", 400.0)]
    ensures CountFor(pairs, "A") == 3 && SumFor(pairs, "A") == 600.0
  {
    assert pairs[1..] == [("A", 100.0), ("A", 400.0)];
    assert pairs[1..][1..] == [("A", 400.0)];
    assert pairs[1..][1..][1..] == [];
    assert CountFor(pairs[1..][1..], "A") == 1 && SumFor(pairs[1..][1..], "A") == 400.0;
    assert CountFor(pairs[1..], "A") == 2 && SumFor(pairs[1..], "A") == 500.0;
  }

  lemma TopKSingleton<T(!new)>(x: T, key: T -> Option<real>, k: nat)
    requires k >= 1
    ensures TopK([x], key, k) == [x]
  {
    var r := TopK([x], key, k);
    assert r[0] in multiset(r);
  }

  lemma RepeatedTypePairs(t: Table)
    requires t.rows == [TypedListing("A, A", 100.0), TypedListing("A", 400.0)]
    ensures TypeCostPairs(t) == [("A", 100.0), ("A", 100.0), ("A", 400.0)]
  {
    RepeatedTypePieces();
    var first := [("A", 100.0), ("A", 100.0)];
    var second := [("A", 400.0)];
    assert TypeCostPairsOf(t.rows[0]) == first by {
      assert PairsWith(["A", "A"], 100.0) == first;
    }
    assert TypeCostPairsOf(t.rows[1]) == second by {
      assert PairsWith(["A"], 400.0) == second;
    }
    assert t.rows[1..] == [t.rows[1]];
    assert t.rows[1..][1..] == [];
    assert TypeCostRows(t.rows[1..]) == [second];
    assert TypeCostRows(t.rows) == [first, second];
    assert Flatten([second]) == second + [];
    assert Flatten([first, second]) == first + Flatten([second]);
  }

  lemma RepeatedTypePieces()
    ensures StrippedPieces("A, A") == ["A", "A"]
    ensures StrippedPieces("A") == ["A"]
  {
    RepeatedTypePiecesTwo();
    RepeatedTypePiecesOne();
  }

  lemma RepeatedTypePiecesTwo()
    ensures StrippedPieces("A, A") == ["A", "A"]
  {
    RepeatedTypeSplits();
    RepeatedTypeStrips();
    StrippedPiecesOfTwo("A, A", "A", " A", "A", "A");
  }

  lemma RepeatedTypePiecesOne()
    ensures StrippedPieces("A") == ["A"]
  {
    RepeatedTypeSplits();
    RepeatedTypeStrips();
    StrippedPiecesOfOne("A", "A", "A");
  }

  lemma StrippedPiecesOfTwo(cell: string, a: string, b: string, x: string, y: string)
    requires Split(cell, ',') == [a, b] && Strip(a) == x && Strip(b) == y
    ensures StrippedPieces(cell) == [x, y]
  {
  }

  lemma StrippedPiecesOfOne(cell: string, a: string, x: string)
    requires Split(cell, ',') == [a] && Strip(a) == x
    ensures StrippedPieces(cell) == [x]
  {
  }

  lemma RepeatedTypeSplits()
    ensures Split("A", ',') == ["A"]
    ensures Split("A, A", ',') == ["A", " A"]
  {
    assert Split("A", ',') == ["A"] by {
      assert "A"[1..] == [];
      assert Split([], ',') == [[]];
      assert ['A'] + [] == "A";
    }
    assert Split(" A", ',') == [" A"] by {
      assert " A"[1..] == "A";
      assert [' '] + "A" == " A";
    }
    assert Split(", A", ',') == ["", " A"] by {
      assert ", A"[1..] == " A";
    }
    assert "A, A"[1..] == ", A";
    assert ['A'] + "" == "A";
  }

  lemma RepeatedTypeStrips()
    ensures Strip(" A") == "A"
    ensures Strip("A") == "A"
  {
    StripLetter();
    StripSpaceLetter();
  }

  lemma StripLetter()
    ensures TrimStart("A") == "A" && Strip("A") == "A"
  {
    TrimStartNoLeadingSpace("A");
    TrimEndNoTrailingSpace("A");
  }

  lemma StripSpaceLetter()
    ensures Strip(" A") == "A"
  {
    StripLetter();
    assert " A"[1..] == "A";
    assert TrimStart(" A") == "A";
    TrimEndNoTrailingSpace("A");
  }

  /** A listed mean lies between the smallest and the largest cost paired
      with that type. */
  lemma RestTypeMeanBetween(t: Table, i: int, lo: real, hi: real)
    requires RestTypeAvgCost(t).Shown?
    requires 0 <= i < |RestTypeAvgCost(t).value|
    requires var k := RestTypeAvgCost(t).value[i].0; var pairs := TypeCostPairs(t);
      forall j :: 0 <= j < |pairs| && pairs[j].0 == k ==> lo <= pairs[j].1 <= hi
    ensures lo <= RestTypeAvgCost(t).value[i].1 <= hi
  {
    RestTypeAvgCostEntry(t, i);
    MeanBetween(TypeCostPairs(t), RestTypeAvgCost(t).value[i].0, lo, hi);
  }

  /** No type left off the chart has a higher mean cost than a listed one. */
  lemma RestTypeAvgCostTop(t: Table, j: int, i: int)
    requires RestTypeAvgCost(t).Shown?
    requires var r := RestTypeAvgCost(t).value; var pairs := TypeCostPairs(t);
      0 <= j < |pairs| && pairs[j].0 !in Keys(r) && 0 <= i < |r|
    ensures var r := RestTypeAvgCost(t).value; var pairs := TypeCostPairs(t);
      SumFor(pairs, pairs[j].0) / CountFor(pairs, pairs[j].0) as real <= r[i].1
  {
    var pairs := TypeCostPairs(t);
    var all := GroupMeans(pairs);
    assert RestTypeAvgCost(t).value == TopK(all, MeanKey, 10);
    var a := IndexIn(Keys(all), pairs[j].0);
    assert all[a].0 == pairs[j].0;
    TopMeansLeftOut(all, 10, a, i);
  }

  /** A mean whose key `head(k)` left out is at most every kept mean. */
  lemma TopMeansLeftOut(all: seq<(string, real)>, k: nat, a: int, i: int)
    requires 0 <= a < |all| && all[a].0 !in Keys(TopK(all, MeanKey, k))
    requires 0 <= i < |TopK(all, MeanKey, k)|
    ensures all[a].1 <= TopK(all, MeanKey, k)[i].1
  {
    var r := TopK(all, MeanKey, k);
    LeftOutEntry(r, all, a);
    assert r[i] in r;
    assert AtLeast(MeanKey(r[i]), MeanKey(all[a]));
  }


  // ---------------------------------------------------------------------
  // Top locations: value_counts().head(10); `index[0]` of an empty result
  // at line 141 raises IndexError

  /** The "Top Locations" chart: skipped without `loc`; its only failure
      is the IndexError of line 141. */
  function TopLocations(t: Table): (r: Section<seq<(string, nat)>>)
    ensures r.Skipped? <==> Loc !in t.columns
    ensures r.Failed? ==> r.error == IndexError
    ensures r.Shown? ==> 1 <= |r.value| <= 10
  {
    if Loc in t.columns then
      var r := TopCounts(Present(LocCells(t)), 10);
      if r == [] then Failed(IndexError) else Shown(r)
    else Skipped
  }

  /** The first entry of `value_counts().head(k)` is a most frequent
      value. */
  lemma TopCountsFirst<T(!new)>(s: seq<T>, k: nat, x: T)
    requires TopCounts(s, k) != [] && x in s
    ensures multiset(s)[x] <= TopCounts(s, k)[0].1
  {
    var r := TopCounts(s, k);
    if x in Keys(r) {
      var i :| 0 <= i < |r| && Keys(r)[i] == x;
      assert r[i].0 == x;
    }
  }

  /** The location chart fails, with IndexError, exactly when every
      location is missing. */
  lemma TopLocationsFails(t: Table)
    requires Loc in t.columns
    ensures TopLocations(t).Failed? <==> forall j :: 0 <= j < |t.rows| ==> t.rows[j].loc.None?
    ensures TopLocations(t).Failed? ==> TopLocations(t).error == IndexError
  {
    if exists j :: 0 <= j < |t.rows| && t.rows[j].loc.Some? {
      var j :| 0 <= j < |t.rows| && t.rows[j].loc.Some?;
      SomeLocationCounted(t, j);
    } else {
      NoLocationCounted(t);
    }
  }

  lemma SomeLocationCounted(t: Table, j: int)
    requires 0 <= j < |t.rows| && t.rows[j].loc.Some?
    ensures |Distinct(Present(LocCells(t)))| > 0
  {
    var cells := LocCells(t);
    var locs := Present(cells);
    assert cells[j] == t.rows[j].loc;
    assert t.rows[j].loc.value in locs;
    assert t.rows[j].loc.value in Distinct(locs);
  }

  lemma NoLocationCounted(t: Table)
    requires forall j :: 0 <= j < |t.rows| ==> t.rows[j].loc.None?
    ensures Present(LocCells(t)) == []
  {
    var cells := LocCells(t);
    assert forall j :: 0 <= j < |cells| ==> cells[j].None?;
    PresentOfMissing(cells);
  }

  /** The location chart lists up to 10 distinct locations (10 when there
      are that many), in non-increasing order of count. */
  lemma TopLocationsSpec(t: Table)
    requires TopLocations(t).Shown?
    ensures var r := TopLocations(t).value;
      && 1 <= |r| <= 10
      && |r| == Min(10, NUnique(LocCells(t)))
      && DistinctKeys(r)
      && (forall i, j :: 0 <= i < j < |r| ==> r[i].1 >= r[j].1)
  {
    var locs := Present(LocCells(t));
    var r := TopCounts(locs, 10);
    assert TopLocations(t).value == r;
    DistinctCount(locs);
  }

  lemma DistinctCount<T(!new)>(s: seq<T>)
    ensures |Distinct(s)| == |set x | x in s|
  {
    NoRepeatsCardinality(Distinct(s));
    assert (set x | x in Distinct(s)) == (set x | x in s);
  }

  /** Each listed location is paired with its number of rows. */
  lemma TopLocationsCounts(t: Table, i: int)
    requires TopLocations(t).Shown? && 0 <= i < |TopLocations(t).value|
    ensures var e := TopLocations(t).value[i];
      Some(e.0) in LocCells(t) && e.1 == multiset(LocCells(t))[Some(e.0)]
  {
    var r := TopCounts(Present(LocCells(t)), 10);
    assert TopLocations(t).value == r;
  }

  /** No location has more rows than the first entry, `top_loc`. */
  lemma TopLocationFirst(t: Table, j: int)
    requires TopLocations(t).Shown?
    requires 0 <= j < |t.rows| && t.rows[j].loc.Some?
    ensures multiset(LocCells(t))[t.rows[j].loc] <= TopLocations(t).value[0].1
  {
    var cells := LocCells(t);
    assert cells[j] == t.rows[j].loc;
    TopCountsFirst(Present(cells), 10, t.rows[j].loc.value);
  }

  /** `top_cuisine` at line 190 is the first entry of the frequency chart:
      no cleaned cuisine occurs more often. */
  lemma TopCuisineMostFrequent(t: Table, p: string)
    requires CuisineFrequency(t).Shown? && CuisineFrequency(t).value != []
    requires p in CleanedCuisines(t)
    ensures Occurrences(CuisinePieceRows(t), p) <= CuisineFrequency(t).value[0].1
  {
    TopCountsFirst(CleanedCuisines(t), 15, p);
    CleanedCuisinePiece(t, p);
  }
}
