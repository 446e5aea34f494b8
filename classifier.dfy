/**
 * Record classification of app.py (`construir_df_minimo`): project the five
 * required columns, add their normalised forms and flag each record compliant
 * or pending.
 */
module Classifier {
  import opened Wrappers
  import opened Normalizer
  import opened Catalog

  /** A loaded sheet: its column labels in order and one column of cells per label. */
  datatype Frame = Frame(labels: seq<string>, columns: seq<seq<Cell>>, height: nat) {
    /** Every label has a column and every column is `height` cells long. */
    predicate Rectangular()
    {
      |labels| == |columns| && forall c :: 0 <= c < |columns| ==> |columns[c]| == height
    }
  }

  /** How many columns carry the label `name`. */
  function Occurrences(labels: seq<string>, name: string): (r: nat)
    ensures r == 0 <==> name !in labels
  {
    if labels == [] then 0
    else (if labels[0] == name then 1 else 0) + Occurrences(labels[1..], name)
  }

  /** The position of the first column carrying the label. */
  function IndexOf(labels: seq<string>, name: string): (r: nat)
    requires name in labels
    ensures r < |labels| && labels[r] == name
    ensures forall j :: 0 <= j < r ==> labels[j] != name
  {
    if labels[0] == name then 0 else 1 + IndexOf(labels[1..], name)
  }

  /**
   * `df[name]`: the column carrying the label. An unknown label raises `KeyError`;
   * a label carried by several columns selects more than one column, which this model
   * reports as an error as well.
   */
  function Select(df: Frame, name: string): (r: Result<seq<Cell>>)
    requires df.Rectangular()
    ensures r.Ok? <==> Occurrences(df.labels, name) == 1
    ensures r.Ok? ==> |r.value| == df.height
    ensures r.Ok? ==> exists c :: 0 <= c < |df.labels| && df.labels[c] == name && r.value == df.columns[c]
  {
    if name !in df.labels then Err("KeyError: " + name)
    else if Occurrences(df.labels, name) > 1 then Err("duplicate column label: " + name)
    else
      var c := IndexOf(df.labels, name);
      Ok(df.columns[c])
  }

  /** One row of the minimal table. */
  datatype Record = Record(
    nombre: Cell, direccion: Cell, sucursal: Cell, curso: Cell, estado: Cell,
    direccionN: string, sucursalN: string, cursoN: string, estadoN: string,
    esCumplido: bool, esPendiente: bool)

  /** The record invariant: normalised fields derive from the raw ones, and the two flags from the status. */
  predicate WellFormed(u: TextOps, r: Record)
  {
    && r.direccionN == NormOne(u, AsOptional(r.direccion))
    && r.sucursalN == NormOne(u, AsOptional(r.sucursal))
    && r.cursoN == NormOne(u, AsOptional(r.curso))
    && r.estadoN == NormOne(u, AsOptional(r.estado))
    && (r.esCumplido <==> r.estadoN in EstadosCumplidos)
    && r.esPendiente == !r.esCumplido
  }

  /** The record the table holds for one row of raw cells. */
  function Classify(u: TextOps, nombre: Cell, direccion: Cell, sucursal: Cell, curso: Cell, estado: Cell): (r: Record)
    ensures WellFormed(u, r)
    ensures r.nombre == nombre && r.direccion == direccion && r.sucursal == sucursal
    ensures r.curso == curso && r.estado == estado
  {
    var estadoN := NormOne(u, AsOptional(estado));
    var cumplido := estadoN in EstadosCumplidos;
    Record(nombre, direccion, sucursal, curso, estado,
           NormOne(u, AsOptional(direccion)), NormOne(u, AsOptional(sucursal)), NormOne(u, AsOptional(curso)),
           estadoN, cumplido, !cumplido)
  }

  /** A well-formed record is determined by its raw cells. */
  lemma WellFormedIsClassified(u: TextOps, r: Record)
    requires WellFormed(u, r)
    ensures r == Classify(u, r.nombre, r.direccion, r.sucursal, r.curso, r.estado)
  {
  }

  /** The table `construir_df_minimo` builds, one field per column, filled in as the source fills them. */
  class RecordTable {
    var nombre: seq<Cell>
    var direccion: seq<Cell>
    var sucursal: seq<Cell>
    var curso: seq<Cell>
    var estado: seq<Cell>
    var direccionN: seq<string>
    var sucursalN: seq<string>
    var cursoN: seq<string>
    var estadoN: seq<string>
    var esCumplido: seq<bool>
    var esPendiente: seq<bool>

    /** The five projected columns have one length. */
    predicate Projected()
      reads this
    {
      |direccion| == |nombre| && |sucursal| == |nombre| && |curso| == |nombre| && |estado| == |nombre|
    }

    function Height(): nat
      reads this
    {
      |nombre|
    }

    /** The four normalised columns are the normalisations of their raw columns. */
    predicate Normalized(u: TextOps)
      reads this
    {
      && Projected()
      && direccionN == NormSeries(u, direccion)
      && sucursalN == NormSeries(u, sucursal)
      && cursoN == NormSeries(u, curso)
      && estadoN == NormSeries(u, estado)
    }

    /** The full table: normalised, with a compliance flag and its negation per row. */
    predicate Classified(u: TextOps)
      reads this
    {
      && Normalized(u)
      && |esCumplido| == Height() && |esPendiente| == Height()
      && (forall i :: 0 <= i < Height() ==> (esCumplido[i] <==> estadoN[i] in EstadosCumplidos))
      && (forall i :: 0 <= i < Height() ==> esPendiente[i] == !esCumplido[i])
    }

    /** `pd.DataFrame({...})` over the five projected columns. */
    constructor (nombre: seq<Cell>, direccion: seq<Cell>, sucursal: seq<Cell>, curso: seq<Cell>, estado: seq<Cell>)
      requires |direccion| == |nombre| && |sucursal| == |nombre| && |curso| == |nombre| && |estado| == |nombre|
      ensures Projected()
      ensures this.nombre == nombre && this.direccion == direccion && this.sucursal == sucursal
      ensures this.curso == curso && this.estado == estado
      ensures direccionN == [] && sucursalN == [] && cursoN == [] && estadoN == []
      ensures esCumplido == [] && esPendiente == []
    {
      this.nombre, this.direccion, this.sucursal, this.curso, this.estado := nombre, direccion, sucursal, curso, estado;
      direccionN, sucursalN, cursoN, estadoN := [], [], [], [];
      esCumplido, esPendiente := [], [];
    }

    /** `out["Dirección_N"] = norm_series(out["Dirección"])` and the same for branch, course and status. */
    method AddNormalizedColumns(u: TextOps)
      requires Projected()
      modifies this
      ensures Normalized(u)
      ensures nombre == old(nombre) && direccion == old(direccion) && sucursal == old(sucursal)
      ensures curso == old(curso) && estado == old(estado)
      ensures esCumplido == old(esCumplido) && esPendiente == old(esPendiente)
    {
      direccionN := NormSeries(u, direccion);
      sucursalN := NormSeries(u, sucursal);
      cursoN := NormSeries(u, curso);
      estadoN := NormSeries(u, estado);
    }

    /** `out["Es_Cumplido"] = out["Estado_Expediente_N"].isin(...)`, then `out["Es_Pendiente"] = ~out["Es_Cumplido"]`. */
    method AddComplianceFlags()
      requires Projected() && |estadoN| == Height()
      modifies this
      ensures nombre == old(nombre) && direccion == old(direccion) && sucursal == old(sucursal)
      ensures curso == old(curso) && estado == old(estado)
      ensures direccionN == old(direccionN) && sucursalN == old(sucursalN)
      ensures cursoN == old(cursoN) && estadoN == old(estadoN)
      ensures |esCumplido| == Height() && |esPendiente| == Height()
      ensures forall i :: 0 <= i < Height() ==> (esCumplido[i] <==> estadoN[i] in EstadosCumplidos)
      ensures forall i :: 0 <= i < Height() ==> esPendiente[i] == !esCumplido[i]
    {
      var status := estadoN;
      var done := seq(|status|, i requires 0 <= i < |status| => status[i] in EstadosCumplidos);
      esCumplido := done;
      esPendiente := seq(|done|, i requires 0 <= i < |done| => !done[i]);
    }

    /** The table read row by row: every row is well formed and carries the raw cells of its position. */
    function Rows(u: TextOps): (rs: seq<Record>)
      reads this
      requires Classified(u)
      ensures |rs| == Height()
      ensures forall i :: 0 <= i < |rs| ==> WellFormed(u, rs[i])
      ensures forall i :: 0 <= i < |rs| ==>
                rs[i].nombre == nombre[i] && rs[i].direccion == direccion[i] && rs[i].sucursal == sucursal[i]
                && rs[i].curso == curso[i] && rs[i].estado == estado[i]
      ensures forall i :: 0 <= i < |rs| ==> rs[i] == Classify(u, nombre[i], direccion[i], sucursal[i], curso[i], estado[i])
    {
      seq(Height(), i requires 0 <= i < Height() && Classified(u) reads this =>
        Record(nombre[i], direccion[i], sucursal[i], curso[i], estado[i],
               direccionN[i], sucursalN[i], cursoN[i], estadoN[i], esCumplido[i], esPendiente[i]))
    }
  }

  /** Every required field is mapped, to a label that selects exactly one column. */
  predicate Selectable(df: Frame, colmap: map<string, string>)
    requires df.Rectangular()
  {
    forall f :: f in ReqCanon ==> f in colmap && Select(df, colmap[f]).Ok?
  }

  /**
   * `construir_df_minimo(df, colmap)`: fails when a required field is unmapped or its
   * label does not select one column; otherwise returns a fresh classified table with
   * the height of the sheet, holding the selected columns.
   */
  method BuildMinimalTable(u: TextOps, df: Frame, colmap: map<string, string>) returns (r: Result<RecordTable>)
    requires df.Rectangular()
    ensures r.Ok? <==> Selectable(df, colmap)
    ensures r.Ok? ==> fresh(r.value) && r.value.Classified(u) && r.value.Height() == df.height
    ensures r.Ok? ==>
              && r.value.nombre == Select(df, colmap[ReqCanon[0]]).value
              && r.value.direccion == Select(df, colmap[ReqCanon[1]]).value
              && r.value.sucursal == Select(df, colmap[ReqCanon[2]]).value
              && r.value.curso == Select(df, colmap[ReqCanon[3]]).value
              && r.value.estado == Select(df, colmap[ReqCanon[4]]).value
  {
    var i := 0;
    while i < |ReqCanon|
      invariant 0 <= i <= |ReqCanon|
      invariant forall j :: 0 <= j < i ==> ReqCanon[j] in colmap && Select(df, colmap[ReqCanon[j]]).Ok?
    {
      var f := ReqCanon[i];
      assert f in ReqCanon;
      if f !in colmap {
        return Err("KeyError: " + f);
      }
      var column := Select(df, colmap[f]);
      if column.Err? {
        return Err(column.message);
      }
      i := i + 1;
    }
    assert Selectable(df, colmap) by {
      forall f | f in ReqCanon ensures f in colmap && Select(df, colmap[f]).Ok? {
        var j :| 0 <= j < |ReqCanon| && ReqCanon[j] == f;
      }
    }
    var nombre := Select(df, colmap[ReqCanon[0]]).value;
    var direccion := Select(df, colmap[ReqCanon[1]]).value;
    var sucursal := Select(df, colmap[ReqCanon[2]]).value;
    var curso := Select(df, colmap[ReqCanon[3]]).value;
    var estado := Select(df, colmap[ReqCanon[4]]).value;
    var t := new RecordTable(nombre, direccion, sucursal, curso, estado);
    t.AddNormalizedColumns(u);
    t.AddComplianceFlags();
    r := Ok(t);
  }
}
