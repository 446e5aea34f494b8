/**
 * Row filters of app.py: the direction selector and filter (lines 191-197), the
 * exact course selection (208-214) and the comma-separated keyword search over
 * course names (216-221).
 */
module Filters {
  import opened Wrappers
  import opened Normalizer
  import opened Classifier

  /** The rows that satisfy `keep`, in their original order (boolean indexing `df[mask]`). */
  function Where<T(!new)>(xs: seq<T>, keep: T -> bool): (r: seq<T>)
    ensures |r| <= |xs|
    ensures forall x :: x in r <==> x in xs && keep(x)
    ensures multiset(r) <= multiset(xs)
  {
    if xs == [] then []
    else
      assert xs == [xs[0]] + xs[1..];
      (if keep(xs[0]) then [xs[0]] else []) + Where(xs[1..], keep)
  }

  /** Filtering distributes over concatenation, so relative order is kept. */
  lemma {:induction false} WhereAppend<T(!new)>(a: seq<T>, b: seq<T>, keep: T -> bool)
    ensures Where(a + b, keep) == Where(a, keep) + Where(b, keep)
  {
    if a == [] {
      assert a + b == b;
    } else {
      assert (a + b)[1..] == a[1..] + b;
      WhereAppend(a[1..], b, keep);
    }
  }

  /** A filter that keeps every row returns the rows unchanged. */
  lemma {:induction false} WhereAll<T(!new)>(xs: seq<T>, keep: T -> bool)
    requires forall x :: x in xs ==> keep(x)
    ensures Where(xs, keep) == xs
  {
    if xs != [] {
      WhereAll(xs[1..], keep);
    }
  }

  /** Filtering twice by the same mask is filtering once. */
  lemma WhereIdempotent<T(!new)>(xs: seq<T>, keep: T -> bool)
    ensures Where(Where(xs, keep), keep) == Where(xs, keep)
  {
    WhereAll(Where(xs, keep), keep);
  }

  /** The `Dirección` column: a cell is listed exactly when some record carries it. */
  function DirectionCells(rows: seq<Record>): (r: seq<Cell>)
    ensures forall c :: c in r <==> exists x :: x in rows && x.direccion == c
  {
    var r := seq(|rows|, i requires 0 <= i < |rows| => rows[i].direccion);
    assert forall c :: c in r <==> exists x :: x in rows && x.direccion == c by {
      forall c | c in r ensures exists x :: x in rows && x.direccion == c {
        var i :| 0 <= i < |r| && r[i] == c;
        assert rows[i] in rows;
      }
      forall x | x in rows ensures x.direccion in r {
        var i :| 0 <= i < |rows| && rows[i] == x;
        assert r[i] == x.direccion;
      }
    }
    r
  }

  /** The `Curso` column: a cell is listed exactly when some record carries it. */
  function CourseCells(rows: seq<Record>): (r: seq<Cell>)
    ensures forall c :: c in r <==> exists x :: x in rows && x.curso == c
  {
    var r := seq(|rows|, i requires 0 <= i < |rows| => rows[i].curso);
    assert forall c :: c in r <==> exists x :: x in rows && x.curso == c by {
      forall c | c in r ensures exists x :: x in rows && x.curso == c {
        var i :| 0 <= i < |r| && r[i] == c;
        assert rows[i] in rows;
      }
      forall x | x in rows ensures x.curso in r {
        var i :| 0 <= i < |rows| && rows[i] == x;
        assert r[i] == x.curso;
      }
    }
    r
  }

  /**
   * `[d for d in col.dropna().unique() if str(d).strip() != ""]`: the distinct present
   * values that are not blank, offered by the direction and course selectors.
   */
  function Choices(u: TextOps, cells: seq<Cell>): (r: set<string>)
    ensures forall d :: d in r <==> Value(d) in cells && Strip(u, d) != ""
  {
    if cells == [] then {}
    else
      (if cells[0].Value? && Strip(u, cells[0].text) != "" then {cells[0].text} else {})
      + Choices(u, cells[1..])
  }

  /** `df[df["Dirección_N"] == norm_one(direccion_objetivo)]` */
  function FilterDirection(u: TextOps, rows: seq<Record>, target: string): (r: seq<Record>)
    ensures forall x :: x in r <==> x in rows && x.direccionN == NormText(u, target)
  {
    Where(rows, (x: Record) => x.direccionN == NormText(u, target))
  }

  /** Every row whose raw direction normalises like the target survives the direction filter. */
  lemma DirectionFilterKeepsEquivalent(u: TextOps, rows: seq<Record>, target: string, x: Record)
    requires x in rows && WellFormed(u, x)
    requires NormOne(u, AsOptional(x.direccion)) == NormText(u, target)
    ensures x in FilterDirection(u, rows, target)
  {
  }

  /** A direction offered by the selector always selects at least the rows it was read from. */
  lemma ChosenDirectionSelectsRows(u: TextOps, rows: seq<Record>, d: string)
    requires forall x :: x in rows ==> WellFormed(u, x)
    requires d in Choices(u, DirectionCells(rows))
    ensures exists x :: x in FilterDirection(u, rows, d) && x.direccion == Value(d)
  {
    var cells := DirectionCells(rows);
    var i :| 0 <= i < |cells| && cells[i] == Value(d);
    assert rows[i] in rows;
    assert rows[i] in FilterDirection(u, rows, d);
  }

  /** The rows of the selected courses; an empty selection keeps every row (app.py:212-214). */
  function FilterCoursesExact(u: TextOps, rows: seq<Record>, selected: seq<string>): (r: seq<Record>)
    ensures selected == [] ==> r == rows
    ensures selected != [] ==> forall x :: x in r <==> x in rows && x.cursoN in NormSet(u, selected)
  {
    if selected == [] then rows
    else
      var wanted := NormSet(u, selected);
      Where(rows, (x: Record) => x.cursoN in wanted)
  }

  /** A selected course keeps exactly the rows whose course normalises like one of the selected names. */
  lemma FilterCoursesExactSpec(u: TextOps, rows: seq<Record>, selected: seq<string>)
    requires selected != []
    ensures forall x :: x in FilterCoursesExact(u, rows, selected) <==>
              x in rows && exists s :: s in selected && x.cursoN == NormText(u, s)
  {
    NormSetMembers(u, selected);
  }

  /** `s.split(sep)`: the pieces between separators, empty pieces included. */
  function SplitOn(s: string, sep: char): (r: seq<string>)
    ensures |r| >= 1
    ensures forall p :: p in r ==> sep !in p
  {
    if s == [] then [""]
    else
      var rest := SplitOn(s[1..], sep);
      if s[0] == sep then [""] + rest else [[s[0]] + rest[0]] + rest[1..]
  }

  /** `sep.join(ps)` */
  function Join(ps: seq<string>, sep: char): string
    requires |ps| >= 1
  {
    if |ps| == 1 then ps[0] else ps[0] + [sep] + Join(ps[1..], sep)
  }

  /** Joining the pieces of a split gives back the text. */
  lemma {:induction false} JoinSplit(s: string, sep: char)
    ensures Join(SplitOn(s, sep), sep) == s
  {
    if s != [] {
      var rest := SplitOn(s[1..], sep);
      JoinSplit(s[1..], sep);
      if s[0] == sep {
        assert SplitOn(s, sep)[1..] == rest;
      } else {
        var ps := SplitOn(s, sep);
        if |rest| == 1 {
          assert ps == [[s[0]] + rest[0]];
        } else {
          assert ps[1..] == rest[1..];
          assert Join(rest, sep) == rest[0] + [sep] + Join(rest[1..], sep);
          assert s == [s[0]] + s[1..];
        }
      }
    }
  }

  /** Splitting text that has no separator before position |p| extends the first piece. */
  lemma {:induction false} SplitPrefix(p: string, t: string, sep: char)
    requires sep !in p
    ensures SplitOn(p + t, sep) == [p + SplitOn(t, sep)[0]] + SplitOn(t, sep)[1..]
  {
    if p == [] {
      assert p + t == t;
      assert p + SplitOn(t, sep)[0] == SplitOn(t, sep)[0];
    } else {
      assert (p + t)[1..] == p[1..] + t;
      SplitPrefix(p[1..], t, sep);
      assert [p[0]] + (p[1..] + SplitOn(t, sep)[0]) == p + SplitOn(t, sep)[0];
    }
  }

  /** Splitting a join of separator-free pieces gives back the pieces. */
  lemma {:induction false} SplitJoin(ps: seq<string>, sep: char)
    requires |ps| >= 1
    requires forall p :: p in ps ==> sep !in p
    ensures SplitOn(Join(ps, sep), sep) == ps
  {
    if |ps| == 1 {
      SplitPrefix(ps[0], "", sep);
      assert ps[0] + "" == ps[0];
    } else {
      SplitJoin(ps[1..], sep);
      var t := [sep] + Join(ps[1..], sep);
      assert ps[0] + [sep] + Join(ps[1..], sep) == ps[0] + t;
      SplitPrefix(ps[0], t, sep);
      assert t[1..] == Join(ps[1..], sep);
      assert ps[0] + "" == ps[0];
      assert ps == [ps[0]] + ps[1..];
    }
  }

  /** `[t.strip() for t in pieces if t.strip()]` */
  function StrippedNonEmpty(u: TextOps, pieces: seq<string>): (r: seq<string>)
    ensures |r| <= |pieces|
  {
    if pieces == [] then []
    else
      var t := Strip(u, pieces[0]);
      (if t != "" then [t] else []) + StrippedNonEmpty(u, pieces[1..])
  }

  lemma {:induction false} StrippedNonEmptyMembers(u: TextOps, pieces: seq<string>)
    ensures forall k :: k in StrippedNonEmpty(u, pieces) <==> k != "" && exists p :: p in pieces && Strip(u, p) == k
  {
    if pieces != [] {
      StrippedNonEmptyMembers(u, pieces[1..]);
      assert forall p :: p in pieces <==> p == pieces[0] || p in pieces[1..];
    }
  }

  /** `[t.strip() for t in (texto or "").split(",") if t.strip()]` */
  function Keywords(u: TextOps, texto: Option<string>): seq<string>
  {
    StrippedNonEmpty(u, SplitOn(texto.GetOr(""), ','))
  }

  /**
   * The keywords are the non-empty, stripped comma-separated pieces of the text, and
   * none of them contains a comma; no text (or an empty one) gives no keywords.
   */
  lemma KeywordsSpec(u: TextOps, texto: Option<string>)
    ensures forall k :: k in Keywords(u, texto) <==>
              k != "" && exists p :: p in SplitOn(texto.GetOr(""), ',') && Strip(u, p) == k
    ensures forall k :: k in Keywords(u, texto) ==> ',' !in k && Strip(u, k) == k
    ensures texto.None? || texto == Some("") ==> Keywords(u, texto) == []
  {
    var pieces := SplitOn(texto.GetOr(""), ',');
    StrippedNonEmptyMembers(u, pieces);
    forall k | k in Keywords(u, texto)
      ensures ',' !in k && Strip(u, k) == k
    {
      var p :| p in pieces && Strip(u, p) == k;
      StripChars(u, p);
      StripIdempotent(u, p);
    }
  }

  /** `kw` occurs in `text` at position `i`, comparing characters case-insensitively. */
  predicate MatchesAt(u: TextOps, text: string, kw: string, i: int)
  {
    0 <= i && i + |kw| <= |text| && forall j :: 0 <= j < |kw| ==> u.fold(text[i + j]) == u.fold(kw[j])
  }

  /** The first position at or after `from` where `kw` occurs case-insensitively. */
  function FirstOccurrence(u: TextOps, text: string, kw: string, from: nat): Option<nat>
    decreases |text| - from
  {
    if from + |kw| > |text| then None
    else if MatchesAt(u, text, kw, from) then Some(from)
    else FirstOccurrence(u, text, kw, from + 1)
  }

  lemma {:induction false} FirstOccurrenceSpec(u: TextOps, text: string, kw: string, from: nat)
    ensures FirstOccurrence(u, text, kw, from).Some? ==>
              var i := FirstOccurrence(u, text, kw, from).value;
              from <= i && MatchesAt(u, text, kw, i) && forall j :: from <= j < i ==> !MatchesAt(u, text, kw, j)
    ensures FirstOccurrence(u, text, kw, from).None? ==> forall j :: from <= j ==> !MatchesAt(u, text, kw, j)
    decreases |text| - from
  {
    if from + |kw| <= |text| && !MatchesAt(u, text, kw, from) {
      FirstOccurrenceSpec(u, text, kw, from + 1);
    }
  }

  /** `re.search(re.escape(kw), text, re.IGNORECASE) is not None` */
  predicate ContainsIgnoreCase(u: TextOps, text: string, kw: string)
  {
    FirstOccurrence(u, text, kw, 0).Some?
  }

  /** The search succeeds exactly when the keyword occurs somewhere in the text. */
  lemma ContainsIgnoreCaseSpec(u: TextOps, text: string, kw: string)
    ensures ContainsIgnoreCase(u, text, kw) <==> exists i :: MatchesAt(u, text, kw, i)
  {
    FirstOccurrenceSpec(u, text, kw, 0);
  }

  /**
   * `str.contains("|".join(re.escape(k) for k in keywords), case=False, regex=True)`:
   * the escaped alternation matches when one of the keywords occurs literally.
   */
  predicate AnyKeyword(u: TextOps, text: string, keywords: seq<string>)
  {
    exists k :: k in keywords && ContainsIgnoreCase(u, text, k)
  }

  /** The keyword filter; no keywords keeps every row (app.py:218-221). */
  function FilterKeywords(u: TextOps, rows: seq<Record>, texto: Option<string>): (r: seq<Record>)
    ensures Keywords(u, texto) == [] ==> r == rows
    ensures Keywords(u, texto) != [] ==>
              forall x :: x in r <==> x in rows && AnyKeyword(u, FillBlank(x.curso), Keywords(u, texto))
  {
    var keywords := Keywords(u, texto);
    if keywords == [] then rows
    else Where(rows, (x: Record) => AnyKeyword(u, FillBlank(x.curso), keywords))
  }

  /** A kept row's course name contains one of the keywords at some position, and every such row is kept. */
  lemma FilterKeywordsSpec(u: TextOps, rows: seq<Record>, texto: Option<string>)
    requires Keywords(u, texto) != []
    ensures forall x :: x in FilterKeywords(u, rows, texto) <==>
              x in rows && exists k, i :: k in Keywords(u, texto) && MatchesAt(u, FillBlank(x.curso), k, i)
  {
    forall x: Record, k | k in Keywords(u, texto) {
      ContainsIgnoreCaseSpec(u, FillBlank(x.curso), k);
    }
  }

  /** The two course-filter modes of the page. */
  datatype CourseFilter = ExactSelection(selected: seq<string>) | TextSearch(texto: Option<string>)

  function FilterCourses(u: TextOps, rows: seq<Record>, mode: CourseFilter): (r: seq<Record>)
    ensures forall x :: x in r ==> x in rows
  {
    match mode
    case ExactSelection(selected) => FilterCoursesExact(u, rows, selected)
    case TextSearch(texto) => FilterKeywords(u, rows, texto)
  }
}
