/**
 * Column mapping of app.py (`build_colmap`) and the required-field check with its
 * manual override that the page performs before classification.
 */
module ColumnMapper {
  import opened Wrappers
  import opened Normalizer
  import opened Catalog

  /** The normal form of every column label, in column order. */
  function Norms(u: TextOps, columns: seq<string>): (r: seq<string>)
    ensures |r| == |columns|
  {
    seq(|columns|, i requires 0 <= i < |columns| => NormText(u, columns[i]))
  }

  /**
   * `{c: i for i, c in enumerate(cols_norm)}`: each normal form of a column maps to the
   * position of a column carrying it (`IndexByNormSpec` says which).
   */
  function IndexByNorm(norms: seq<string>): (m: map<string, nat>)
    ensures forall k :: k in m ==> m[k] < |norms|
  {
    if norms == [] then map[]
    else
      var n := |norms| - 1;
      IndexByNorm(norms[..n])[norms[n] := n]
  }

  /** When several columns share a normal form, the dictionary keeps the last of them. */
  lemma {:induction false} IndexByNormSpec(norms: seq<string>)
    ensures forall k :: k in IndexByNorm(norms) <==> k in norms
    ensures forall k :: k in IndexByNorm(norms) ==> norms[IndexByNorm(norms)[k]] == k
    ensures forall k :: k in IndexByNorm(norms) ==>
              forall j :: IndexByNorm(norms)[k] < j < |norms| ==> norms[j] != k
  {
    if norms != [] {
      var n := |norms| - 1;
      var init := norms[..n];
      assert norms == init + [norms[n]];
      IndexByNormSpec(init);
    }
  }

  /** `IndexByNormSpec` for one normal form. */
  lemma IndexByNormAt(norms: seq<string>, k: string)
    ensures k in IndexByNorm(norms) <==> k in norms
    ensures k in IndexByNorm(norms) ==> norms[IndexByNorm(norms)[k]] == k
    ensures k in IndexByNorm(norms) ==> forall j :: IndexByNorm(norms)[k] < j < |norms| ==> norms[j] != k
  {
    IndexByNormSpec(norms);
  }

  /**
   * The synonym `build_colmap` settles on for one field, searching from position
   * `from`: the index of a synonym whose normal form some column carries, with the
   * index of a column carrying it (`FirstMatchHit`, `FirstMatchEarliest` and
   * `FirstMatchNone` say which).
   */
  function FirstMatch(u: TextOps, synonyms: seq<string>, norms: seq<string>, from: nat): (r: Option<(nat, nat)>)
    requires from <= |synonyms|
    ensures r.Some? ==> from <= r.value.0 < |synonyms| && r.value.1 < |norms|
    decreases |synonyms| - from
  {
    if from == |synonyms| then None
    else
      var alt := NormText(u, synonyms[from]);
      var idx := IndexByNorm(norms);
      if alt in idx then Some((from, idx[alt])) else FirstMatch(u, synonyms, norms, from + 1)
  }

  /** The column chosen carries the chosen synonym's normal form, and is the last column that does. */
  lemma {:induction false} FirstMatchHit(u: TextOps, synonyms: seq<string>, norms: seq<string>, from: nat)
    requires from <= |synonyms|
    ensures var r := FirstMatch(u, synonyms, norms, from);
      r.Some? ==> && norms[r.value.1] == NormText(u, synonyms[r.value.0])
                  && forall j :: r.value.1 < j < |norms| ==> norms[j] != NormText(u, synonyms[r.value.0])
    decreases |synonyms| - from
  {
    if from < |synonyms| {
      IndexByNormAt(norms, NormText(u, synonyms[from]));
      FirstMatchHit(u, synonyms, norms, from + 1);
    }
  }

  /** The synonym chosen is the earliest in list order whose normal form some column carries. */
  lemma {:induction false} FirstMatchEarliest(u: TextOps, synonyms: seq<string>, norms: seq<string>, from: nat)
    requires from <= |synonyms|
    ensures var r := FirstMatch(u, synonyms, norms, from);
      r.Some? ==> forall a :: from <= a < r.value.0 ==> NormText(u, synonyms[a]) !in norms
    decreases |synonyms| - from
  {
    if from < |synonyms| {
      IndexByNormAt(norms, NormText(u, synonyms[from]));
      FirstMatchEarliest(u, synonyms, norms, from + 1);
    }
  }

  /** Nothing is found exactly when no synonym's normal form is among the columns'. */
  lemma {:induction false} FirstMatchNone(u: TextOps, synonyms: seq<string>, norms: seq<string>, from: nat)
    requires from <= |synonyms|
    ensures FirstMatch(u, synonyms, norms, from).None? <==>
              forall a :: from <= a < |synonyms| ==> NormText(u, synonyms[a]) !in norms
    decreases |synonyms| - from
  {
    if from < |synonyms| {
      IndexByNormAt(norms, NormText(u, synonyms[from]));
      FirstMatchNone(u, synonyms, norms, from + 1);
    }
  }

  /** The label `build_colmap` finds for a field with these synonyms, if any (before the truthiness test). */
  function Found(u: TextOps, synonyms: seq<string>, columns: seq<string>): Option<string>
  {
    match FirstMatch(u, synonyms, Norms(u, columns), 0)
    case None => None
    case Some(m) => Some(columns[m.1])
  }

  /** The label stored for a field: the one found, unless it is the empty string. */
  function Chosen(u: TextOps, e: Entry, columns: seq<string>): Option<string>
  {
    match Found(u, e.synonyms, columns)
    case Some(l) => if l != "" then Some(l) else None
    case None => None
  }

  predicate DistinctCanons(catalog: seq<Entry>)
  {
    forall i, j :: 0 <= i < j < |catalog| ==> catalog[i].canon != catalog[j].canon
  }

  /** The map `build_colmap` has built after the fields of `catalog`, in order. */
  function ColmapOf(u: TextOps, catalog: seq<Entry>, columns: seq<string>): map<string, string>
  {
    if catalog == [] then map[]
    else
      var n := |catalog| - 1;
      var m := ColmapOf(u, catalog[..n], columns);
      var found := Found(u, catalog[n].synonyms, columns);
      if found.Some? && found.value != "" then m[catalog[n].canon := found.value] else m
  }

  /** A found label is one of the column labels. */
  lemma FoundIsColumn(u: TextOps, synonyms: seq<string>, columns: seq<string>)
    ensures Found(u, synonyms, columns).Some? ==> Found(u, synonyms, columns).value in columns
  {
  }

  /** `ColmapOf` maps only catalogue keys, and only to non-empty column labels. */
  lemma {:induction false} ColmapOfRange(u: TextOps, catalog: seq<Entry>, columns: seq<string>)
    ensures forall k :: k in ColmapOf(u, catalog, columns) ==> k in Canons(catalog)
    ensures forall k :: k in ColmapOf(u, catalog, columns) ==>
              ColmapOf(u, catalog, columns)[k] in columns && ColmapOf(u, catalog, columns)[k] != ""
  {
    if catalog != [] {
      var n := |catalog| - 1;
      var init := catalog[..n];
      ColmapOfRange(u, init, columns);
      FoundIsColumn(u, catalog[n].synonyms, columns);
      assert forall e :: e in init ==> e in catalog;
      assert catalog[n] in catalog;
    }
  }

  /**
   * Over a catalogue with distinct keys, `ColmapOf` maps exactly the fields with a
   * chosen label, to that label.
   */
  lemma {:induction false} ColmapOfFields(u: TextOps, catalog: seq<Entry>, columns: seq<string>)
    requires DistinctCanons(catalog)
    ensures forall i :: 0 <= i < |catalog| ==>
              (catalog[i].canon in ColmapOf(u, catalog, columns) <==> Chosen(u, catalog[i], columns).Some?)
    ensures forall i :: 0 <= i < |catalog| && catalog[i].canon in ColmapOf(u, catalog, columns) ==>
              ColmapOf(u, catalog, columns)[catalog[i].canon] == Chosen(u, catalog[i], columns).value
  {
    if catalog != [] {
      var n := |catalog| - 1;
      var init := catalog[..n];
      DistinctCanonsPrefix(catalog);
      ColmapOfFields(u, init, columns);
      LastKeyUnmapped(u, catalog, columns);
      var m := ColmapOf(u, init, columns);
      var M := ColmapOf(u, catalog, columns);
      var k := catalog[n].canon;
      assert M == if Chosen(u, catalog[n], columns).Some? then m[k := Chosen(u, catalog[n], columns).value] else m;
      forall i | 0 <= i < |catalog|
        ensures catalog[i].canon in M <==> Chosen(u, catalog[i], columns).Some?
        ensures catalog[i].canon in M ==> M[catalog[i].canon] == Chosen(u, catalog[i], columns).value
      {
        if i < n {
          assert catalog[i] == init[i] && catalog[i].canon != k;
        }
      }
    }
  }

  /** Dropping the last field keeps the keys distinct. */
  lemma DistinctCanonsPrefix(catalog: seq<Entry>)
    requires DistinctCanons(catalog) && catalog != []
    ensures DistinctCanons(catalog[..|catalog| - 1])
  {
    var init := catalog[..|catalog| - 1];
    forall i, j | 0 <= i < j < |init| ensures init[i].canon != init[j].canon {
      assert init[i] == catalog[i] && init[j] == catalog[j];
    }
  }

  /** Over distinct keys, the last field is not yet mapped by the fields before it. */
  lemma LastKeyUnmapped(u: TextOps, catalog: seq<Entry>, columns: seq<string>)
    requires DistinctCanons(catalog) && catalog != []
    ensures catalog[|catalog| - 1].canon !in ColmapOf(u, catalog[..|catalog| - 1], columns)
  {
    var n := |catalog| - 1;
    var init := catalog[..n];
    ColmapOfRange(u, init, columns);
    forall e | e in init ensures e.canon != catalog[n].canon {
      var j :| 0 <= j < n && init[j] == e;
      assert init[j] == catalog[j];
    }
  }

  /** The three facts about `ColmapOf` stated over the entries themselves. */
  lemma ColmapOfSpec(u: TextOps, catalog: seq<Entry>, columns: seq<string>)
    requires DistinctCanons(catalog)
    ensures forall k :: k in ColmapOf(u, catalog, columns) ==> k in Canons(catalog)
    ensures forall k :: k in ColmapOf(u, catalog, columns) ==>
              ColmapOf(u, catalog, columns)[k] in columns && ColmapOf(u, catalog, columns)[k] != ""
    ensures forall e :: e in catalog ==> (e.canon in ColmapOf(u, catalog, columns) <==> Chosen(u, e, columns).Some?)
    ensures forall e :: e in catalog && e.canon in ColmapOf(u, catalog, columns) ==>
              ColmapOf(u, catalog, columns)[e.canon] == Chosen(u, e, columns).value
  {
    ColmapOfRange(u, catalog, columns);
    ColmapOfFields(u, catalog, columns);
  }

  /**
   * `build_colmap`, over a catalogue with distinct keys (app.py uses `SYNONYMS`):
   * every field whose earliest matching synonym leads to a non-empty label is mapped to
   * that label, and no other key appears.
   */
  method BuildColmap(u: TextOps, catalog: seq<Entry>, columns: seq<string>) returns (colmap: map<string, string>)
    requires DistinctCanons(catalog)
    ensures forall k :: k in colmap ==> k in Canons(catalog)
    ensures forall k :: k in colmap ==> colmap[k] in columns && colmap[k] != ""
    ensures forall e :: e in catalog ==> (e.canon in colmap <==> Chosen(u, e, columns).Some?)
    ensures forall e :: e in catalog && e.canon in colmap ==> colmap[e.canon] == Chosen(u, e, columns).value
  {
    var colsNorm := Norms(u, columns);
    var idxByNorm := IndexByNorm(colsNorm);
    colmap := map[];
    var n := 0;
    while n < |catalog|
      invariant 0 <= n <= |catalog|
      invariant colmap == ColmapOf(u, catalog[..n], columns)
    {
      var canon := catalog[n].canon;
      var found := FindLabel(u, catalog[n].synonyms, columns, colsNorm, idxByNorm);
      ColmapOfStep(u, catalog, columns, n);
      if found.Some? && found.value != "" {
        colmap := colmap[canon := found.value];
      }
      n := n + 1;
    }
    assert catalog[..n] == catalog;
    ColmapOfSpec(u, catalog, columns);
  }

  /** One more field: `ColmapOf` over the first n + 1 fields extends the map over the first n. */
  lemma ColmapOfStep(u: TextOps, catalog: seq<Entry>, columns: seq<string>, n: nat)
    requires n < |catalog|
    ensures var m := ColmapOf(u, catalog[..n], columns);
            var found := Found(u, catalog[n].synonyms, columns);
            ColmapOf(u, catalog[..n + 1], columns) ==
              if found.Some? && found.value != "" then m[catalog[n].canon := found.value] else m
  {
    assert catalog[..n + 1][..n] == catalog[..n];
  }

  /** The inner loop of `build_colmap`: the first synonym whose normal form is a column's. */
  method FindLabel(u: TextOps, alts: seq<string>, columns: seq<string>, colsNorm: seq<string>,
                   idxByNorm: map<string, nat>)
    returns (found: Option<string>)
    requires colsNorm == Norms(u, columns) && idxByNorm == IndexByNorm(colsNorm)
    ensures found == Found(u, alts, columns)
  {
    found := None;
    var a := 0;
    while a < |alts|
      invariant 0 <= a <= |alts|
      invariant FirstMatch(u, alts, colsNorm, 0) == FirstMatch(u, alts, colsNorm, a)
    {
      var altN := NormText(u, alts[a]);
      if altN in idxByNorm {
        found := Some(columns[idxByNorm[altN]]);
        return;
      }
      a := a + 1;
    }
  }

  /** `[c for c in REQ_CANON if c not in colmap]`, for any list of required fields. */
  function MissingFields(required: seq<string>, colmap: map<string, string>): (r: seq<string>)
    ensures |r| <= |required|
    ensures forall c :: c in r <==> c in required && c !in colmap
  {
    if required == [] then []
    else
      var rest := MissingFields(required[1..], colmap);
      assert forall c :: c in required <==> c == required[0] || c in required[1..];
      if required[0] in colmap then rest else [required[0]] + rest
  }

  /** What the page does once the automatic map is known. */
  datatype Resolution = Proceed(colmap: map<string, string>) | Stop(stillMissing: seq<string>)

  /**
   * The required-field check and manual override: with nothing missing the automatic map
   * is used; otherwise the operator's choice for each required field (`picks`, one per
   * field of `ReqCanon`) replaces it, and any field marked "(No existe)" stops processing.
   */
  function ResolveColumns(auto: map<string, string>, picks: seq<string>): (r: Resolution)
    requires |picks| == |ReqCanon|
    ensures MissingFields(ReqCanon, auto) == [] ==> r == Proceed(auto)
    ensures r.Stop? <==> MissingFields(ReqCanon, auto) != [] && NoExiste in picks
    ensures r.Stop? ==> forall c :: c in r.stillMissing <==>
                          exists i :: 0 <= i < |ReqCanon| && ReqCanon[i] == c && picks[i] == NoExiste
    ensures r.Proceed? ==> forall c :: c in ReqCanon ==> c in r.colmap
    ensures r.Proceed? && MissingFields(ReqCanon, auto) != [] ==>
              NoExiste !in r.colmap.Values
              && r.colmap.Keys == set c | c in ReqCanon
              && forall i :: 0 <= i < |ReqCanon| ==> r.colmap[ReqCanon[i]] == picks[i]
  {
    CatalogKeys();
    if MissingFields(ReqCanon, auto) == [] then Proceed(auto)
    else
      var still := MarkedMissing(ReqCanon, picks);
      if still != [] then Stop(still)
      else Proceed(PairUp(ReqCanon, picks))
  }

  /** `[k for k, v in manual.items() if v == "(No existe)"]` */
  function MarkedMissing(fields: seq<string>, picks: seq<string>): (r: seq<string>)
    requires |picks| == |fields|
    ensures forall c :: c in r <==> exists i :: 0 <= i < |fields| && fields[i] == c && picks[i] == NoExiste
    ensures r == [] <==> NoExiste !in picks
  {
    if fields == [] then []
    else
      var rest := MarkedMissing(fields[1..], picks[1..]);
      assert forall i :: 0 < i < |fields| ==> fields[i] == fields[1..][i - 1] && picks[i] == picks[1..][i - 1];
      assert forall p :: p in picks <==> p == picks[0] || p in picks[1..];
      if picks[0] == NoExiste then [fields[0]] + rest else rest
  }

  /** `{k: v for k, v in manual.items()}`: each field mapped to its pick. */
  function PairUp(fields: seq<string>, picks: seq<string>): (m: map<string, string>)
    requires |picks| == |fields|
    requires forall i, j :: 0 <= i < j < |fields| ==> fields[i] != fields[j]
    ensures m.Keys == set c | c in fields
    ensures forall i :: 0 <= i < |fields| ==> m[fields[i]] == picks[i]
  {
    if fields == [] then map[]
    else
      var rest := PairUp(fields[1..], picks[1..]);
      assert forall i :: 0 < i < |fields| ==> fields[i] == fields[1..][i - 1] && picks[i] == picks[1..][i - 1];
      rest[fields[0] := picks[0]]
  }
}
