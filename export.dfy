/**
 * The two tables handed to the visual Excel report (app.py:277-293): the summary
 * rows that still have pending records, one line each after a header row, or a
 * single "(Sin pendientes)" line when there are none.
 */
module Export {
  import opened Normalizer
  import opened Classifier
  import opened Filters
  import opened Aggregator

  /** A cell of an export table. */
  datatype XCell =
    | Text(s: string)                  // a literal label
    | Key(c: Cell)                     // a group key as read from the sheet
    | Count(n: nat)                    // `int(r["Pendientes"])`
    | Percent(pend: nat, total: nat)   // `f"{(pend / total * 100):.1f} %"`, kept unformatted

  const CourseHeader: seq<XCell> := [Text("Curso"), Text("Pendientes"), Text("% Pendientes")]
  const CoursePlaceholder: seq<XCell> := [Text("(Sin pendientes)"), Count(0), Text("0 %")]
  const AreaHeader: seq<XCell> := [Text("Área"), Text("Pendientes")]
  const AreaPlaceholder: seq<XCell> := [Text("(Sin pendientes)"), Count(0)]

  /** `rep[rep["Pendientes"] > 0]` */
  function PendingGroups<K(!new)>(report: seq<Summary<K>>): seq<Summary<K>>
  {
    Where(report, (g: Summary<K>) => g.pendientes > 0)
  }

  /** The kept summary rows are those with pending records; none are kept exactly when no row pends. */
  lemma PendingGroupsSpec<K(!new)>(report: seq<Summary<K>>)
    ensures forall g :: g in PendingGroups(report) <==> g in report && g.pendientes > 0
    ensures PendingGroups(report) == [] <==> forall g :: g in report ==> g.pendientes == 0
  {
    var r := PendingGroups(report);
    assert r != [] ==> r[0] in r;
  }

  /** The percentage cell: formatted when the group has records, `"0 %"` otherwise. */
  function Share(pend: nat, total: nat): (r: XCell)
    ensures r.Percent? <==> total != 0
    ensures r.Percent? ==> r.pend == pend && r.total == total
  {
    if total != 0 then Percent(pend, total) else Text("0 %")
  }

  /** `[curso, pend, pct]` */
  function CourseLine(g: Summary<Cell>): seq<XCell>
  {
    [Key(g.key), Count(g.pendientes), Share(g.pendientes, g.total)]
  }

  /** `[r["Sucursal"], int(r["Pendientes"])]` for a (direction, branch) group. */
  function AreaLine(g: Summary<(Cell, Cell)>): seq<XCell>
  {
    [Key(g.key.1), Count(g.pendientes)]
  }

  function CourseLines(gs: seq<Summary<Cell>>): (r: seq<seq<XCell>>)
    ensures |r| == |gs| && forall i :: 0 <= i < |gs| ==> r[i] == CourseLine(gs[i])
  {
    if gs == [] then [] else CourseLines(gs[..|gs| - 1]) + [CourseLine(gs[|gs| - 1])]
  }

  function AreaLines(gs: seq<Summary<(Cell, Cell)>>): (r: seq<seq<XCell>>)
    ensures |r| == |gs| && forall i :: 0 <= i < |gs| ==> r[i] == AreaLine(gs[i])
  {
    if gs == [] then [] else AreaLines(gs[..|gs| - 1]) + [AreaLine(gs[|gs| - 1])]
  }

  /** Appending the next summary row's line to the header and the lines so far. */
  lemma CourseLinesSnoc(header: seq<XCell>, gs: seq<Summary<Cell>>, i: nat)
    requires i < |gs|
    ensures [header] + CourseLines(gs[..i + 1]) == [header] + CourseLines(gs[..i]) + [CourseLine(gs[i])]
  {
    assert gs[..i + 1][..i] == gs[..i];
  }

  lemma AreaLinesSnoc(header: seq<XCell>, gs: seq<Summary<(Cell, Cell)>>, i: nat)
    requires i < |gs|
    ensures [header] + AreaLines(gs[..i + 1]) == [header] + AreaLines(gs[..i]) + [AreaLine(gs[i])]
  {
    assert gs[..i + 1][..i] == gs[..i];
  }

  /** The header followed by the lines, or by the placeholder when there are none. */
  function Framed(header: seq<XCell>, lines: seq<seq<XCell>>, placeholder: seq<XCell>): seq<seq<XCell>>
  {
    if lines == [] then [header, placeholder] else [header] + lines
  }

  /** The course table is the placeholder table exactly when no summary row pends. */
  lemma CourseTableShape(report: seq<Summary<Cell>>)
    ensures var t := Framed(CourseHeader, CourseLines(PendingGroups(report)), CoursePlaceholder);
      && |t| >= 2 && t[0] == CourseHeader
      && (PendingGroups(report) == [] <==> t == [CourseHeader, CoursePlaceholder])
      && (PendingGroups(report) != [] ==> t[1..] == CourseLines(PendingGroups(report)))
  {
    var lines := CourseLines(PendingGroups(report));
    if lines != [] {
      assert lines[0] == CourseLine(PendingGroups(report)[0]);
      assert ([CourseHeader] + lines)[1] == lines[0];
    }
  }

  /** The area table is the placeholder table exactly when no summary row pends. */
  lemma AreaTableShape(report: seq<Summary<(Cell, Cell)>>)
    ensures var t := Framed(AreaHeader, AreaLines(PendingGroups(report)), AreaPlaceholder);
      && |t| >= 2 && t[0] == AreaHeader
      && (PendingGroups(report) == [] <==> t == [AreaHeader, AreaPlaceholder])
      && (PendingGroups(report) != [] ==> t[1..] == AreaLines(PendingGroups(report)))
  {
    var lines := AreaLines(PendingGroups(report));
    if lines != [] {
      assert lines[0] == AreaLine(PendingGroups(report)[0]);
      assert ([AreaHeader] + lines)[1] == lines[0];
    }
  }

  /** `tabla_cursos`: the header, then one line per summary row with pending records, or the placeholder. */
  method BuildCourseTable(report: seq<Summary<Cell>>) returns (tabla: seq<seq<XCell>>)
    ensures tabla == Framed(CourseHeader, CourseLines(PendingGroups(report)), CoursePlaceholder)
  {
    var pending := PendingGroups(report);
    tabla := [CourseHeader];
    var i := 0;
    while i < |pending|
      invariant 0 <= i <= |pending|
      invariant tabla == [CourseHeader] + CourseLines(pending[..i])
    {
      var g := pending[i];
      CourseLinesSnoc(CourseHeader, pending, i);
      tabla := tabla + [[Key(g.key), Count(g.pendientes), Share(g.pendientes, g.total)]];
      i := i + 1;
    }
    assert pending[..i] == pending;
    if |tabla| == 1 {
      tabla := tabla + [CoursePlaceholder];
    }
  }

  /** `tabla_areas`: the header, then one line per summary row with pending records, or the placeholder. */
  method BuildAreaTable(report: seq<Summary<(Cell, Cell)>>) returns (tabla: seq<seq<XCell>>)
    ensures tabla == Framed(AreaHeader, AreaLines(PendingGroups(report)), AreaPlaceholder)
  {
    var pending := PendingGroups(report);
    tabla := [AreaHeader];
    var i := 0;
    while i < |pending|
      invariant 0 <= i <= |pending|
      invariant tabla == [AreaHeader] + AreaLines(pending[..i])
    {
      var g := pending[i];
      AreaLinesSnoc(AreaHeader, pending, i);
      tabla := tabla + [[Key(g.key.1), Count(g.pendientes)]];
      i := i + 1;
    }
    assert pending[..i] == pending;
    if |tabla| == 1 {
      tabla := tabla + [AreaPlaceholder];
    }
  }

  /**
   * The lines of the course table are exactly the lines of the summary rows with
   * pending records, and none of them can be mistaken for the placeholder.
   */
  lemma CourseLinesSpec(report: seq<Summary<Cell>>)
    ensures forall line :: line in CourseLines(PendingGroups(report)) <==>
              exists g :: g in report && g.pendientes > 0 && line == CourseLine(g)
    ensures CoursePlaceholder !in CourseLines(PendingGroups(report))
  {
    var pending := PendingGroups(report);
    PendingGroupsSpec(report);
    forall line ensures line in CourseLines(pending) <==> exists g :: g in report && g.pendientes > 0 && line == CourseLine(g) {
      if exists g :: g in report && g.pendientes > 0 && line == CourseLine(g) {
        var g :| g in report && g.pendientes > 0 && line == CourseLine(g);
        var i :| 0 <= i < |pending| && pending[i] == g;
        assert CourseLines(pending)[i] == line;
      }
    }
  }

  /**
   * The lines of the area table are exactly the lines of the summary rows with pending
   * records, and none of them can be mistaken for the placeholder.
   */
  lemma AreaLinesSpec(report: seq<Summary<(Cell, Cell)>>)
    ensures forall line :: line in AreaLines(PendingGroups(report)) <==>
              exists g :: g in report && g.pendientes > 0 && line == AreaLine(g)
    ensures AreaPlaceholder !in AreaLines(PendingGroups(report))
  {
    var pending := PendingGroups(report);
    PendingGroupsSpec(report);
    forall line ensures line in AreaLines(pending) <==> exists g :: g in report && g.pendientes > 0 && line == AreaLine(g) {
      if exists g :: g in report && g.pendientes > 0 && line == AreaLine(g) {
        var g :| g in report && g.pendientes > 0 && line == AreaLine(g);
        var i :| 0 <= i < |pending| && pending[i] == g;
        assert AreaLines(pending)[i] == line;
      }
    }
  }

  /** A summary row with pending records has records, so its share is never the `"0 %"` fallback. */
  lemma ShareOfPendingGroup<K(!new)>(rows: seq<Record>, key: Record -> K, k: K)
    requires Tally(rows, key, k).pendientes > 0
    ensures Tally(rows, key, k).total > 0
    ensures Share(Tally(rows, key, k).pendientes, Tally(rows, key, k).total).Percent?
  {
    TallyPendingBound(rows, key, k);
  }

  /** With no records left after filtering, both summaries are empty and both tables are header plus placeholder. */
  lemma NoRecordsNoPendingGroups()
    ensures PendingGroups(Report([], CourseKey)) == []
    ensures PendingGroups(Report([], BranchKey)) == []
    ensures Framed(CourseHeader, CourseLines(PendingGroups(Report([], CourseKey))), CoursePlaceholder)
              == [CourseHeader, CoursePlaceholder]
    ensures Framed(AreaHeader, AreaLines(PendingGroups(Report([], BranchKey))), AreaPlaceholder)
              == [AreaHeader, AreaPlaceholder]
  {
    EmptyReport(CourseKey);
    EmptyReport(BranchKey);
  }
}
