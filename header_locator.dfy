/**
 * Header location of app.py (`score_row_as_header`, `detectar_fila_header`) and
 * the forward fill of blank header labels done when the detected row becomes the
 * header (`cargar_excel_autoheader`).
 */
module HeaderLocator {
  import opened Wrappers
  import opened Normalizer
  import opened Catalog

  /** The smallest score a row needs to be taken as the header. */
  const MinHeaderScore: nat := 2

  /** The number of preview rows scanned when the caller gives no limit. */
  const DefaultMaxScanRows: int := 80

  /** `str(x)` of a cell: pandas' missing value prints as "nan". */
  function CellStr(c: Cell): string
  {
    match c
    case Missing => "nan"
    case Value(s) => s
  }

  /** A cell whose stripped text is "", "nan" or "None" does not take part in scoring. */
  predicate Blank(u: TextOps, c: Cell)
  {
    Strip(u, CellStr(c)) in {"", "nan", "None"}
  }

  /** The set of normalised non-blank cells of a row. */
  function RowNorm(u: TextOps, row: seq<Cell>): (r: set<string>)
    ensures |r| <= |row|
  {
    if row == [] then {}
    else
      var init := row[..|row| - 1];
      var last := row[|row| - 1];
      assert row == init + [last];
      var rest := RowNorm(u, init);
      if Blank(u, last) then rest else rest + {NormText(u, CellStr(last))}
  }

  /** `RowNorm` is the set comprehension of `score_row_as_header`. */
  lemma {:induction false} RowNormMembers(u: TextOps, row: seq<Cell>)
    ensures forall n :: n in RowNorm(u, row) <==> exists c :: c in row && !Blank(u, c) && NormText(u, CellStr(c)) == n
  {
    if row != [] {
      var init := row[..|row| - 1];
      assert row == init + [row[|row| - 1]];
      RowNormMembers(u, init);
    }
  }

  /** The normalised synonym labels of every canonical field of a catalogue. */
  function ExpectedNorm(u: TextOps, catalog: seq<Entry>): set<string>
  {
    NormSet(u, Flatten(catalog))
  }

  /** The expected set holds the normal forms of the catalogue's synonyms and nothing else. */
  lemma ExpectedNormMembers(u: TextOps, catalog: seq<Entry>)
    ensures forall e, a :: e in catalog && a in e.synonyms ==> NormText(u, a) in ExpectedNorm(u, catalog)
    ensures forall n :: n in ExpectedNorm(u, catalog) ==> exists e, a :: e in catalog && a in e.synonyms && NormText(u, a) == n
  {
    NormSetMembers(u, Flatten(catalog));
  }

  lemma {:induction false} SubsetCard<T>(a: set<T>, b: set<T>)
    requires a <= b
    ensures |a| <= |b|
    decreases |a|
  {
    if a != {} {
      var x :| x in a;
      SubsetCard(a - {x}, b - {x});
    }
  }

  /** `score_row_as_header`: how many expected labels the row holds, each counted once. */
  function ScoreRow(u: TextOps, row: seq<Cell>, expected: set<string>): (r: nat)
    ensures r <= |expected|
    ensures r <= |row|
  {
    var hits := RowNorm(u, row) * expected;
    SubsetCard(hits, expected);
    SubsetCard(hits, RowNorm(u, row));
    |hits|
  }

  /** The score of a row against a catalogue (app.py scores against `SYNONYMS`). */
  function HeaderScore(u: TextOps, catalog: seq<Entry>, row: seq<Cell>): nat
  {
    ScoreRow(u, row, ExpectedNorm(u, catalog))
  }

  /** A repeated cell does not raise the score. */
  lemma ScoreIgnoresDuplicate(u: TextOps, row: seq<Cell>, c: Cell, expected: set<string>)
    requires c in row
    ensures ScoreRow(u, row + [c], expected) == ScoreRow(u, row, expected)
  {
    RowNormMembers(u, row);
    RowNormMembers(u, row + [c]);
    assert RowNorm(u, row + [c]) == RowNorm(u, row);
  }

  /** A blank, "nan" or "None" cell does not raise the score. */
  lemma ScoreIgnoresBlank(u: TextOps, row: seq<Cell>, c: Cell, expected: set<string>)
    requires Blank(u, c)
    ensures ScoreRow(u, row + [c], expected) == ScoreRow(u, row, expected)
  {
    RowNormMembers(u, row);
    RowNormMembers(u, row + [c]);
    assert RowNorm(u, row + [c]) == RowNorm(u, row);
  }

  /** A row whose normalised cells include those of another row scores at least as much. */
  lemma ScoreMonotone(u: TextOps, small: seq<Cell>, large: seq<Cell>, expected: set<string>)
    requires RowNorm(u, small) <= RowNorm(u, large)
    ensures ScoreRow(u, small, expected) <= ScoreRow(u, large, expected)
  {
    SubsetCard(RowNorm(u, small) * expected, RowNorm(u, large) * expected);
  }

  /** A row holding every synonym of every field reaches the highest possible score. */
  lemma FullCatalogRowScoresHighest(u: TextOps, catalog: seq<Entry>, full: seq<Cell>, other: seq<Cell>)
    requires forall e, a :: e in catalog && a in e.synonyms ==> Value(a) in full && !Blank(u, Value(a))
    ensures HeaderScore(u, catalog, full) == |ExpectedNorm(u, catalog)|
    ensures HeaderScore(u, catalog, other) <= HeaderScore(u, catalog, full)
  {
    var expected := ExpectedNorm(u, catalog);
    ExpectedNormMembers(u, catalog);
    RowNormMembers(u, full);
    forall n | n in expected
      ensures n in RowNorm(u, full)
    {
      var a :| a in Flatten(catalog) && n == NormText(u, a);
      var e :| e in catalog && a in e.synonyms;
      assert Value(a) in full && CellStr(Value(a)) == a;
    }
    assert RowNorm(u, full) * expected == expected;
  }

  /**
   * A row whose normalised cells miss one expected normal form scores strictly below a
   * row holding every synonym. The claim is about normal forms, not labels: several
   * synonyms share one normal form ("Dirección" and "Direccion", say).
   */
  lemma StrictBelowFull(u: TextOps, catalog: seq<Entry>, full: seq<Cell>, other: seq<Cell>, n: string)
    requires forall e, a :: e in catalog && a in e.synonyms ==> Value(a) in full && !Blank(u, Value(a))
    requires n in ExpectedNorm(u, catalog) && n !in RowNorm(u, other)
    ensures HeaderScore(u, catalog, other) < HeaderScore(u, catalog, full)
  {
    FullCatalogRowScoresHighest(u, catalog, full, other);
    SubsetCard(RowNorm(u, other) * ExpectedNorm(u, catalog), ExpectedNorm(u, catalog) - {n});
  }

  /** `min(max_scan_rows, len(preview))`, never below zero (`range` of a negative bound is empty). */
  function ScanLimit(maxScanRows: int, rows: nat): (r: nat)
    ensures r <= rows
    ensures maxScanRows >= 0 ==> r <= maxScanRows
    ensures maxScanRows < 0 ==> r == 0
    ensures 0 <= maxScanRows ==> r == rows || r == maxScanRows
  {
    if maxScanRows < 0 then 0 else if maxScanRows < rows then maxScanRows else rows
  }

  /**
   * `detectar_fila_header`: the first row of highest score among the scanned rows,
   * provided that score reaches `MinHeaderScore`; otherwise no row.
   */
  method DetectHeaderRow(u: TextOps, catalog: seq<Entry>, preview: seq<seq<Cell>>, maxScanRows: int)
    returns (r: Option<nat>)
    ensures r.Some? ==> r.value < ScanLimit(maxScanRows, |preview|)
    ensures r.Some? ==> HeaderScore(u, catalog, preview[r.value]) >= MinHeaderScore
    ensures r.Some? ==> forall j :: 0 <= j < ScanLimit(maxScanRows, |preview|) ==>
                          HeaderScore(u, catalog, preview[j]) <= HeaderScore(u, catalog, preview[r.value])
    ensures r.Some? ==> forall j :: 0 <= j < r.value ==> HeaderScore(u, catalog, preview[j]) < HeaderScore(u, catalog, preview[r.value])
    ensures r.None? <==> forall j :: 0 <= j < ScanLimit(maxScanRows, |preview|) ==> HeaderScore(u, catalog, preview[j]) < MinHeaderScore
  {
    var expected := ExpectedNorm(u, catalog);
    var bestI: Option<nat> := None;
    var bestScore: nat := 0;
    var limit := ScanLimit(maxScanRows, |preview|);
    var i := 0;
    while i < limit
      invariant 0 <= i <= limit
      invariant forall j :: 0 <= j < i ==> ScoreRow(u, preview[j], expected) <= bestScore
      invariant bestI.None? ==> bestScore == 0
      invariant bestI.Some? ==> bestI.value < i && ScoreRow(u, preview[bestI.value], expected) == bestScore
      invariant bestI.Some? ==> forall j :: 0 <= j < bestI.value ==> ScoreRow(u, preview[j], expected) < bestScore
    {
      var score := ScoreRow(u, preview[i], expected);
      if score > bestScore {
        bestScore := score;
        bestI := Some(i);
      }
      i := i + 1;
    }
    r := if bestScore >= MinHeaderScore then bestI else None;
  }

  /** Forward fill: every empty label takes the label before it; leading empties stay empty. */
  function FillForward(labels: seq<string>, carry: string): (r: seq<string>)
    ensures |r| == |labels|
    ensures forall i :: 0 <= i < |labels| && labels[i] != "" ==> r[i] == labels[i]
    ensures |labels| > 0 && labels[0] == "" ==> r[0] == carry
    ensures forall i :: 0 < i < |labels| && labels[i] == "" ==> r[i] == r[i - 1]
  {
    if labels == [] then []
    else
      var v := if labels[0] == "" then carry else labels[0];
      var rest := FillForward(labels[1..], v);
      [v] + rest
  }

  /**
   * The header labels taken from the detected row: missing cells become "", every
   * label is stripped, and an empty label repeats the label on its left (merged cells).
   */
  function HeaderLabels(u: TextOps, row: seq<Cell>): (r: seq<string>)
    ensures |r| == |row|
    ensures forall i :: 0 <= i < |row| && Strip(u, FillBlank(row[i])) != "" ==> r[i] == Strip(u, FillBlank(row[i]))
    ensures forall i :: 0 <= i < |row| && Strip(u, FillBlank(row[i])) == "" ==> r[i] == (if i == 0 then "" else r[i - 1])
  {
    FillForward(seq(|row|, i requires 0 <= i < |row| => Strip(u, FillBlank(row[i]))), "")
  }
}
