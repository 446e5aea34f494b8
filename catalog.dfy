/** The fixed vocabularies of app.py: the synonym catalogue, the required fields and the compliant statuses. */
module Catalog {

  /** One canonical field and its accepted column labels, in authored priority order. */
  datatype Entry = Entry(canon: string, synonyms: seq<string>)

  /** `SYNONYMS`, in the dictionary's insertion order. */
  const Synonyms: seq<Entry> := [
    Entry("Nombre_Colaborador", [
      "Usuario - Nombre completo del usuario",
      "Nombre_Colaborador", "Nombre", "Colaborador", "Empleado", "Nombre del colaborador"]),
    Entry("Dirección", [
      "Usuario - Dirección",
      "Dirección", "Direccion", "Dirección / Área", "Direccion / Area", "Dirección General"]),
    Entry("Sucursal", [
      "Usuario - Departamento",
      "Usuario - Departamento Parent",
      "Sucursal", "Departamento", "Área", "Area", "Unidad", "Subárea", "Subarea"]),
    Entry("Curso", [
      "Capacitación - Título de la capacitación",
      "Curso", "Nombre_Curso", "Curso Asignado", "Capacitación", "Capacitacion", "Nombre del curso"]),
    Entry("Estado_Expediente", [
      "Registro de capacitación - Estado del expediente",
      "Estado_Expediente", "Estatus_Expediente", "Estado", "Estatus", "Status", "Avance"])
  ]

  /** `REQ_CANON`: the fields classification cannot do without. */
  const ReqCanon: seq<string> := ["Nombre_Colaborador", "Dirección", "Sucursal", "Curso", "Estado_Expediente"]

  /** `ESTADOS_CUMPLIDOS`: normalised statuses that count as compliant. */
  const EstadosCumplidos: set<string> := {"TERMINADO", "CONCLUIDO", "EXENCION"}

  /** The label the manual mapping offers for "this field does not exist". */
  const NoExiste: string := "(No existe)"

  /** The dictionary's keys: a key is listed exactly when some entry has it as its field. */
  function Canons(es: seq<Entry>): (r: seq<string>)
    ensures forall k :: k in r <==> exists e :: e in es && e.canon == k
  {
    var r := seq(|es|, i requires 0 <= i < |es| => es[i].canon);
    assert forall k :: k in r <==> exists e :: e in es && e.canon == k by {
      forall k | k in r ensures exists e :: e in es && e.canon == k {
        var i :| 0 <= i < |r| && r[i] == k;
        assert es[i] in es;
      }
      forall e | e in es ensures e.canon in r {
        var i :| 0 <= i < |es| && es[i] == e;
        assert r[i] == e.canon;
      }
    }
    r
  }

  /** `sum(SYNONYMS.values(), [])`: every synonym list, concatenated in order. */
  function Flatten(es: seq<Entry>): (r: seq<string>)
    ensures forall a :: a in r <==> exists e :: e in es && a in e.synonyms
  {
    if es == [] then []
    else
      var rest := Flatten(es[1..]);
      assert forall e :: e in es[1..] ==> e in es;
      assert forall e :: e in es ==> e == es[0] || e in es[1..];
      es[0].synonyms + rest
  }

  /** The catalogue's keys are distinct and are exactly the required fields, in the same order. */
  lemma CatalogKeys()
    ensures Canons(Synonyms) == ReqCanon
    ensures forall i, j :: 0 <= i < j < |ReqCanon| ==> ReqCanon[i] != ReqCanon[j]
  {
  }
}
