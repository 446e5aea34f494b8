/**
 * The pipeline on concrete data, under a small Latin-alphabet instance of the
 * Unicode services: ASCII letters plus the Spanish accented vowels and Ñ, with
 * acute accent and tilde as the only combining marks.
 */
module Scenarios {
  import opened Wrappers
  import opened Normalizer
  import opened Catalog
  import opened HeaderLocator
  import opened Classifier
  import opened Filters
  import opened Aggregator

  const Acute: char := '\U{0301}'
  const Tilde: char := '\U{0303}'

  function LatinUpper(c: char): string
  {
    if 'a' <= c <= 'z' then [(c as int - 32) as char]
    else if c == '\U{E1}' then "\U{C1}"
    else if c == '\U{E9}' then "\U{C9}"
    else if c == '\U{ED}' then "\U{CD}"
    else if c == '\U{F3}' then "\U{D3}"
    else if c == '\U{FA}' then "\U{DA}"
    else if c == '\U{F1}' then "\U{D1}"
    else [c]
  }

  function LatinDecompose(c: char): string
  {
    if c == '\U{C1}' then ['A', Acute]
    else if c == '\U{C9}' then ['E', Acute]
    else if c == '\U{CD}' then ['I', Acute]
    else if c == '\U{D3}' then ['O', Acute]
    else if c == '\U{DA}' then ['U', Acute]
    else if c == '\U{D1}' then ['N', Tilde]
    else [c]
  }

  function LatinFold(c: char): char
  {
    if 'A' <= c <= 'Z' then (c as int + 32) as char else c
  }

  const Latin: TextOps := TextOps(
    c => c == ' ' || c == '\t' || c == '\n' || c == '\r',
    LatinUpper,
    LatinDecompose,
    c => c == Acute || c == Tilde,
    LatinFold)

  /** The character a letter normalises to: its upper-case base letter. */
  function LatinBase(c: char): char
  {
    if 'a' <= c <= 'z' then (c as int - 32) as char
    else if c == '\U{E1}' || c == '\U{C1}' then 'A'
    else if c == '\U{E9}' || c == '\U{C9}' then 'E'
    else if c == '\U{ED}' || c == '\U{CD}' then 'I'
    else if c == '\U{F3}' || c == '\U{D3}' then 'O'
    else if c == '\U{FA}' || c == '\U{DA}' then 'U'
    else if c == '\U{F1}' || c == '\U{D1}' then 'N'
    else c
  }

  lemma FlatMapOne(f: char -> string, c: char)
    ensures FlatMap(f, [c]) == f(c)
  {
    assert [c][1..] == [];
  }

  lemma FlatMapTwo(f: char -> string, c: char, d: char)
    ensures FlatMap(f, [c, d]) == f(c) + f(d)
  {
    assert [c, d][1..] == [d];
    FlatMapOne(f, d);
  }

  /** Every character that is not a mark normalises to its base letter. */
  lemma NormCharLatin(c: char)
    requires c != Acute && c != Tilde
    ensures NormChar(Latin, c) == [LatinBase(c)]
  {
    var up := LatinUpper(c);
    assert |up| == 1;
    FlatMapOne(LatinDecompose, up[0]);
    assert up == [up[0]];
    var d := LatinDecompose(up[0]);
    if |d| == 2 {
      assert d[1] == Acute || d[1] == Tilde;
      assert d[1..][1..] == [];
      assert DropCombining(Latin, d) == [d[0]];
    } else {
      assert d[1..] == [];
    }
  }

  /** The base letters of a text. */
  function Bases(s: string): (r: string)
    ensures |r| == |s| && forall i :: 0 <= i < |s| ==> r[i] == LatinBase(s[i])
  {
    if s == [] then [] else [LatinBase(s[0])] + Bases(s[1..])
  }

  lemma {:induction false} NormCharsLatin(s: string)
    requires Acute !in s && Tilde !in s
    ensures NormChars(Latin, s) == Bases(s)
  {
    if s != [] {
      NormCharsLatin(s[1..]);
      NormCharLatin(s[0]);
    }
  }

  /** The normal form of a mark-free text whose ends are not whitespace is its base letters. */
  lemma NormTextLatin(s: string)
    requires Acute !in s && Tilde !in s
    requires |s| > 0 && !Latin.isSpace(s[0]) && !Latin.isSpace(s[|s| - 1])
    ensures NormText(Latin, s) == Bases(s)
  {
    NormTextCharwise(Latin, s);
    assert TrimLeft(Latin, s) == s;
    assert TrimRight(Latin, s) == s;
    NormCharsLatin(s);
  }

  /** A word whose letters have the base letters `t` normalises to `t`. */
  lemma LatinWord(s: string, t: string)
    requires Acute !in s && Tilde !in s
    requires |s| > 0 && !Latin.isSpace(s[0]) && !Latin.isSpace(s[|s| - 1])
    requires |s| == |t| && forall i :: 0 <= i < |s| ==> LatinBase(s[i]) == t[i]
    ensures NormText(Latin, s) == t
  {
    NormTextLatin(s);
    assert Bases(s) == t;
  }

  // The normal forms of the sample words. Each takes the word as a parameter equal to it,
  // so that its letters are examined in a proof of their own.

  lemma NormNombre(s: string)
    requires s == "Nombre"
    ensures NormText(Latin, s) == "NOMBRE"
  {
    LatinWord(s, "NOMBRE");
  }

  lemma NormCurso(s: string)
    requires s == "Curso"
    ensures NormText(Latin, s) == "CURSO"
  {
    LatinWord(s, "CURSO");
  }

  lemma NormFinanzasTitle(s: string)
    requires s == "Finanzas"
    ensures NormText(Latin, s) == "FINANZAS"
  {
    LatinWord(s, "FINANZAS");
  }

  lemma NormFinanzasUpper(s: string)
    requires s == "FINANZAS"
    ensures NormText(Latin, s) == "FINANZAS"
  {
    LatinWord(s, "FINANZAS");
  }

  lemma NormFinanzasLower(s: string)
    requires s == "finanzas"
    ensures NormText(Latin, s) == "FINANZAS"
  {
    LatinWord(s, "FINANZAS");
  }

  lemma NormTerminado(s: string)
    requires s == "Terminado"
    ensures NormText(Latin, s) == "TERMINADO"
  {
    LatinWord(s, "TERMINADO");
  }

  lemma NormEnProceso(s: string)
    requires s == "En proceso"
    ensures NormText(Latin, s) == "EN PROCESO"
  {
    LatinWord(s, "EN PROCESO");
  }

  lemma NormExencion(s: string)
    requires s == "EXENCI\U{D3}N"
    ensures NormText(Latin, s) == "EXENCION"
  {
    LatinWord(s, "EXENCION");
  }

  /** A missing cell reads as "nan", which the locator treats as blank. */
  lemma MissingIsBlank()
    ensures Blank(Latin, Missing)
  {
    assert TrimLeft(Latin, "nan") == "nan";
    assert TrimRight(Latin, "nan") == "nan";
  }

  /** A title row (one text cell followed by empty cells) matches at most one label. */
  lemma TitleRowScoresLow(u: TextOps, catalog: seq<Entry>, title: Cell)
    requires Blank(u, Missing)
    ensures HeaderScore(u, catalog, [title, Missing, Missing, Missing, Missing]) <= 1
  {
    var e := ExpectedNorm(u, catalog);
    var m := Missing;
    assert [title, m, m, m, m] == [title, m, m, m] + [m];
    assert [title, m, m, m] == [title, m, m] + [m];
    assert [title, m, m] == [title, m] + [m];
    assert [title, m] == [title] + [m];
    ScoreIgnoresBlank(u, [title, m, m, m], m, e);
    ScoreIgnoresBlank(u, [title, m, m], m, e);
    ScoreIgnoresBlank(u, [title, m], m, e);
    ScoreIgnoresBlank(u, [title], m, e);
  }

  lemma InRowNorm(u: TextOps, row: seq<Cell>, x: string)
    requires Value(x) in row && !Blank(u, Value(x))
    ensures NormText(u, x) in RowNorm(u, row)
  {
    RowNormMembers(u, row);
    assert CellStr(Value(x)) == x;
  }

  lemma InExpected(u: TextOps, catalog: seq<Entry>, x: string)
    requires x in Flatten(catalog)
    ensures NormText(u, x) in ExpectedNorm(u, catalog)
  {
    NormSetMembers(u, Flatten(catalog));
  }

  lemma TwoShared<T>(a: T, b: T, xs: set<T>, ys: set<T>)
    requires a in xs && a in ys && b in xs && b in ys && a != b
    ensures |xs * ys| >= 2
  {
    SubsetCard({a, b}, xs * ys);
  }

  /** A row holding two catalogue labels with different normal forms scores at least 2. */
  lemma TwoLabelsScoreTwo(u: TextOps, catalog: seq<Entry>, row: seq<Cell>, x: string, y: string)
    requires Value(x) in row && Value(y) in row && !Blank(u, Value(x)) && !Blank(u, Value(y))
    requires x in Flatten(catalog) && y in Flatten(catalog)
    requires NormText(u, x) != NormText(u, y)
    ensures HeaderScore(u, catalog, row) >= 2
  {
    InRowNorm(u, row, x);
    InRowNorm(u, row, y);
    InExpected(u, catalog, x);
    InExpected(u, catalog, y);
    TwoShared(NormText(u, x), NormText(u, y), RowNorm(u, row), ExpectedNorm(u, catalog));
  }

  const TitleRow: seq<Cell> := [Value("Reporte de capacitaci\U{F3}n"), Missing, Missing, Missing, Missing]
  const DateRow: seq<Cell> := [Value("Fecha de corte"), Missing, Missing, Missing, Missing]
  const LabelRow: seq<Cell> := [Value("Nombre"), Value("Direcci\U{F3}n"), Value("Sucursal"), Value("Curso"), Value("Estado")]

  /** A word with no whitespace at its ends, other than "nan" and "None", is not blank. */
  lemma WordNotBlank(x: string)
    requires |x| > 0 && !Latin.isSpace(x[0]) && !Latin.isSpace(x[|x| - 1]) && x != "nan" && x != "None"
    ensures !Blank(Latin, Value(x))
  {
    assert TrimLeft(Latin, x) == x;
    assert TrimRight(Latin, x) == x;
  }

  /** "Nombre" and "Curso" are labels of the catalogue. */
  lemma SampleLabelsInCatalog()
    ensures "Nombre" in Flatten(Synonyms) && "Curso" in Flatten(Synonyms)
  {
    assert "Nombre" in Synonyms[0].synonyms && Synonyms[0] in Synonyms;
    assert "Curso" in Synonyms[3].synonyms && Synonyms[3] in Synonyms;
  }

  /** The label row scores at least 2 against any catalogue listing "Nombre" and "Curso", as the authored one does. */
  lemma LabelRowScores(catalog: seq<Entry>, row: seq<Cell>)
    requires "Nombre" in Flatten(catalog) && "Curso" in Flatten(catalog)
    requires row == LabelRow
    ensures HeaderScore(Latin, catalog, row) >= 2
  {
    WordNotBlank("Nombre");
    WordNotBlank("Curso");
    NormNombre("Nombre");
    NormCurso("Curso");
    TwoLabelsScoreTwo(Latin, catalog, row, "Nombre", "Curso");
  }

  /** The two title rows match at most one label each. */
  lemma TitleRowsScoreLow(catalog: seq<Entry>, grid: seq<seq<Cell>>)
    requires grid == [TitleRow, DateRow, LabelRow]
    ensures HeaderScore(Latin, catalog, grid[0]) <= 1 && HeaderScore(Latin, catalog, grid[1]) <= 1
  {
    MissingIsBlank();
    assert grid[0] == [grid[0][0], Missing, Missing, Missing, Missing];
    assert grid[1] == [grid[1][0], Missing, Missing, Missing, Missing];
    TitleRowScoresLow(Latin, catalog, grid[0][0]);
    TitleRowScoresLow(Latin, catalog, grid[1][0]);
  }

  /** With two low-scoring rows above a row scoring at least 2, the locator picks the third. */
  method LocateBelowTwo(u: TextOps, catalog: seq<Entry>, grid: seq<seq<Cell>>) returns (r: Option<nat>)
    requires |grid| == 3
    requires HeaderScore(u, catalog, grid[0]) <= 1 && HeaderScore(u, catalog, grid[1]) <= 1
    requires HeaderScore(u, catalog, grid[2]) >= 2
    ensures r == Some(2)
  {
    r := DetectHeaderRow(u, catalog, grid, DefaultMaxScanRows);
    assert ScanLimit(DefaultMaxScanRows, |grid|) == 3;
    if r.None? {
      assert false;
    }
    var k := r.value;
    if k == 0 {
      assert false;
    } else if k == 1 {
      assert false;
    }
  }

  /**
   * Two title rows above the labels: the locator returns row 2, for the authored
   * catalogue and for any other that lists "Nombre" and "Curso".
   */
  method LocateHeaderExample(catalog: seq<Entry>, grid: seq<seq<Cell>>) returns (r: Option<nat>)
    requires "Nombre" in Flatten(catalog) && "Curso" in Flatten(catalog)
    requires grid == [TitleRow, DateRow, LabelRow]
    ensures r == Some(2)
  {
    TitleRowsScoreLow(catalog, grid);
    LabelRowScores(catalog, grid[2]);
    r := LocateBelowTwo(Latin, catalog, grid);
  }

  /** The headline figures of three records, one indicator per record. */
  lemma MetricsOfThree(a: Record, b: Record, c: Record)
    ensures MetricsOf([a, b, c]) == Metrics(3, Indicator(a.esCumplido) + Indicator(b.esCumplido) + Indicator(c.esCumplido),
                                              Indicator(a.esPendiente) + Indicator(b.esPendiente) + Indicator(c.esPendiente))
  {
    var rows := [a, b, c];
    assert rows[..2] == [a, b] && rows[..2][..1] == [a] && rows[..2][..1][..0] == [];
    var done := (x: Record) => x.esCumplido;
    var pending := (x: Record) => x.esPendiente;
    assert CountIf([a], done) == Indicator(a.esCumplido);
    assert CountIf([a, b], done) == Indicator(a.esCumplido) + Indicator(b.esCumplido);
    assert CountIf([a], pending) == Indicator(a.esPendiente);
    assert CountIf([a, b], pending) == Indicator(a.esPendiente) + Indicator(b.esPendiente);
  }

  /** Compliant, pending, compliant: the figures are 3, 2 and 1. */
  lemma TwoCompliantOnePending(a: Record, b: Record, c: Record)
    requires a.esCumplido && !a.esPendiente && !b.esCumplido && b.esPendiente && c.esCumplido && !c.esPendiente
    ensures MetricsOf([a, b, c]) == Metrics(3, 2, 1)
  {
    MetricsOfThree(a, b, c);
  }

  /** "EN PROCESO" is not one of the compliant statuses. */
  lemma InProgressIsPending(s: string)
    requires s == "EN PROCESO"
    ensures s !in EstadosCumplidos
  {
    assert |s| == 10;
  }

  /** A well-formed record's normalised direction is the normal form of its direction cell. */
  lemma DirectionFact(r: Record, d: string)
    requires WellFormed(Latin, r) && r.direccion == Value(d)
    ensures r.direccionN == NormText(Latin, d)
  {
  }

  lemma UpperFinanzas(r: Record)
    requires WellFormed(Latin, r) && r.direccion == Value("FINANZAS")
    ensures r.direccionN == "FINANZAS"
  {
    DirectionFact(r, r.direccion.text);
    NormFinanzasUpper(r.direccion.text);
  }

  lemma TitleFinanzas(r: Record)
    requires WellFormed(Latin, r) && r.direccion == Value("Finanzas")
    ensures r.direccionN == "FINANZAS"
  {
    DirectionFact(r, r.direccion.text);
    NormFinanzasTitle(r.direccion.text);
  }

  lemma LowerFinanzas(r: Record)
    requires WellFormed(Latin, r) && r.direccion == Value("finanzas")
    ensures r.direccionN == "FINANZAS"
  {
    DirectionFact(r, r.direccion.text);
    NormFinanzasLower(r.direccion.text);
  }

  /** Records whose directions all normalise like the target pass the direction filter unchanged. */
  lemma SameDirectionKept(a: Record, b: Record, c: Record, target: string)
    requires a.direccionN == NormText(Latin, target) && b.direccionN == NormText(Latin, target)
    requires c.direccionN == NormText(Latin, target)
    ensures FilterDirection(Latin, [a, b, c], target) == [a, b, c]
  {
    var keep := (x: Record) => x.direccionN == NormText(Latin, target);
    assert keep(a) && keep(b) && keep(c);
    WhereAll([a, b, c], keep);
  }

  /**
   * Three records of the direction "Finanzas", spelled in three cases: filtering
   * for "Finanzas" keeps all three.
   */
  lemma DirectionExample(a: Record, b: Record, c: Record, target: string)
    requires WellFormed(Latin, a) && a.direccion == Value("FINANZAS")
    requires WellFormed(Latin, b) && b.direccion == Value("Finanzas")
    requires WellFormed(Latin, c) && c.direccion == Value("finanzas")
    requires target == "Finanzas"
    ensures FilterDirection(Latin, [a, b, c], target) == [a, b, c]
  {
    UpperFinanzas(a);
    TitleFinanzas(b);
    LowerFinanzas(c);
    NormFinanzasTitle(target);
    SameDirectionKept(a, b, c, target);
  }

  /** A well-formed record is compliant exactly when its normalised status is one of the compliant ones. */
  lemma StatusFact(r: Record, e: string)
    requires WellFormed(Latin, r) && r.estado == Value(e)
    ensures r.estadoN == NormText(Latin, e)
    ensures r.esCumplido <==> NormText(Latin, e) in EstadosCumplidos
    ensures r.esPendiente == !r.esCumplido
  {
  }

  lemma FinishedIsCompliant(r: Record)
    requires WellFormed(Latin, r) && r.estado == Value("Terminado")
    ensures r.esCumplido && !r.esPendiente
  {
    StatusFact(r, r.estado.text);
    NormTerminado(r.estado.text);
  }

  lemma InProgressIsPendingRecord(r: Record)
    requires WellFormed(Latin, r) && r.estado == Value("En proceso")
    ensures !r.esCumplido && r.esPendiente
  {
    StatusFact(r, r.estado.text);
    NormEnProceso(r.estado.text);
    InProgressIsPending(NormText(Latin, r.estado.text));
  }

  lemma ExemptionIsCompliant(r: Record)
    requires WellFormed(Latin, r) && r.estado == Value("EXENCI\U{D3}N")
    ensures r.esCumplido && !r.esPendiente
  {
    StatusFact(r, r.estado.text);
    NormExencion(r.estado.text);
  }

  /**
   * The statuses "Terminado", "En proceso" and "EXENCIÓN": two records count as
   * compliant and one as pending.
   */
  lemma StatusExample(a: Record, b: Record, c: Record)
    requires WellFormed(Latin, a) && a.estado == Value("Terminado")
    requires WellFormed(Latin, b) && b.estado == Value("En proceso")
    requires WellFormed(Latin, c) && c.estado == Value("EXENCI\U{D3}N")
    ensures MetricsOf([a, b, c]) == Metrics(3, 2, 1)
  {
    FinishedIsCompliant(a);
    InProgressIsPendingRecord(b);
    ExemptionIsCompliant(c);
    TwoCompliantOnePending(a, b, c);
  }

  /** A lone word without commas or surrounding spaces is the single keyword. */
  lemma SingleKeyword(u: TextOps)
    requires !u.isSpace('s') && !u.isSpace('d')
    ensures Keywords(u, Some("seguridad")) == ["seguridad"]
  {
    var kw := "seguridad";
    SplitJoin([kw], ',');
    assert Strip(u, kw) == kw;
  }

  /** "seguridad" occurs in "Medidas de seguridad en el puesto de trabajo", at position 11. */
  lemma SeguridadInSafetyCourse(u: TextOps)
    ensures AnyKeyword(u, "Medidas de seguridad en el puesto de trabajo", ["seguridad"])
  {
    var kw := "seguridad";
    var text := "Medidas de seguridad en el puesto de trabajo";
    assert MatchesAt(u, text, kw, 11) by {
      assert text[11..20] == kw;
    }
    ContainsIgnoreCaseSpec(u, text, kw);
    assert kw in [kw];
  }

  /** "seguridad" is longer than "PCI DSS", so it cannot occur in it. */
  lemma SeguridadNotInPciCourse(u: TextOps)
    ensures !AnyKeyword(u, "PCI DSS", ["seguridad"])
  {
    ContainsIgnoreCaseSpec(u, "PCI DSS", "seguridad");
  }

  /**
   * Searching "seguridad" over the courses "Medidas de seguridad en el puesto de
   * trabajo" and "PCI DSS" keeps only the first row, whatever the case folding.
   */
  lemma KeywordSearchExample(u: TextOps, first: Record, second: Record)
    requires !u.isSpace('s') && !u.isSpace('d')
    requires first.curso == Value("Medidas de seguridad en el puesto de trabajo")
    requires second.curso == Value("PCI DSS")
    ensures FilterKeywords(u, [first, second], Some("seguridad")) == [first]
  {
    var kw := "seguridad";
    SingleKeyword(u);
    SeguridadInSafetyCourse(u);
    SeguridadNotInPciCourse(u);
    var keep := (x: Record) => AnyKeyword(u, FillBlank(x.curso), [kw]);
    assert FilterKeywords(u, [first, second], Some(kw)) == Where([first, second], keep);
    assert [first, second][1..] == [second];
    assert Where([second], keep) == [];
  }

  /** The spacing acute accent U+00B4, which NFKD decomposes to a space followed by a combining acute. */
  const SpacingAcute: char := '\U{B4}'

  function CompatDecompose(c: char): string
  {
    if c == SpacingAcute then [' ', Acute] else LatinDecompose(c)
  }

  /** The Latin instance with the compatibility decomposition of the spacing acute accent. */
  const LatinCompat: TextOps := TextOps(Latin.isSpace, LatinUpper, CompatDecompose, Latin.combining, LatinFold)

  lemma CompatNormAccent()
    ensures NormChar(LatinCompat, SpacingAcute) == " "
  {
    var u := LatinCompat;
    assert u.upper(SpacingAcute) == [SpacingAcute];
    FlatMapOne(u.decompose, SpacingAcute);
    var d := [' ', Acute];
    assert FlatMap(u.decompose, u.upper(SpacingAcute)) == d;
    assert d[1..] == [Acute] && d[1..][1..] == [];
    assert u.combining(Acute) && !u.combining(' ');
    assert DropCombining(u, d[1..]) == [];
  }

  lemma CompatNormLetter()
    ensures NormChar(LatinCompat, 'A') == "A"
  {
    FlatMapOne(CompatDecompose, 'A');
    assert LatinUpper('A') == ['A'];
  }

  /**
   * Normalisation is not idempotent once the decomposition can produce whitespace:
   * the stripping happens before decomposition, so "´A" normalises to " A", and
   * normalising that again strips the space.
   */
  lemma NormalisationNotIdempotent(s: string)
    requires s == [SpacingAcute, 'A']
    ensures NormText(LatinCompat, s) == " A"
    ensures NormText(LatinCompat, NormText(LatinCompat, s)) == "A"
    ensures NormText(LatinCompat, NormText(LatinCompat, s)) != NormText(LatinCompat, s)
  {
    var u := LatinCompat;
    NormTextCharwise(u, s);
    assert TrimLeft(u, s) == s;
    assert TrimRight(u, s) == s;
    assert s[1..] == ['A'] && s[1..][1..] == [];
    CompatNormAccent();
    CompatNormLetter();
    assert NormChars(u, s[1..]) == "A";
    assert NormChars(u, s) == " " + "A";
    var t := " A";
    NormTextCharwise(u, t);
    assert TrimLeft(u, t) == "A";
    assert TrimRight(u, "A") == "A";
    assert "A"[1..] == [];
  }
}
