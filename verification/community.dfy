/**
 * Per-request resolution of a selected community: look the selection up by
 * boundary name, take that boundary's community code, keep the property
 * records with that code, and take the display name from the first of them.
 * Also the list of community names offered for selection.
 */
module Community {
  import opened Wrappers
  import opened Normalize
  import opened Ordering

  /** A community boundary: the name users select by, and the code properties are joined on. */
  datatype Boundary = Boundary(name: string, commCode: string)

  /** An administrative sector; only its presence matters here. */
  datatype Sector = Sector(sectorName: string)

  /**
   * The three reference datasets; each is absent when loading failed. A
   * failed load leaves all three absent.
   */
  datatype Datasets = Datasets(
    properties: Option<seq<Property>>,
    boundaries: Option<seq<Boundary>>,
    sectors: Option<seq<Sector>>)

  /** What a map request resolves to. */
  datatype MapOutcome =
    | BadRequest                                  // no selection, or data not loaded
    | BoundaryNotFound(selection: string)         // no boundary carries the selected name
    | NoProperties(name: string, code: string)    // the boundary matched, but no property has its code
    | Found(boundary: Boundary, code: string, properties: seq<Property>, displayName: string)
  {
    /** The HTTP status the outcome is reported with. */
    function Status(): nat
    {
      match this
      case BadRequest => 400
      case BoundaryNotFound(_) => 404
      case NoProperties(_, _) => 404
      case Found(_, _, _, _) => 200
    }
  }

  /**
   * The datasets after the load step: all three normalised when every fetch
   * succeeded, all three absent otherwise.
   */
  function LoadDatasets(fetched: Option<(seq<RawProperty>, seq<Boundary>, seq<Sector>)>): (d: Datasets)
    ensures d.properties.Some? == d.boundaries.Some? == d.sectors.Some? == fetched.Some?
    ensures fetched.Some? ==>
      && |d.properties.value| == |fetched.value.0|
      && (forall i :: 0 <= i < |d.properties.value| ==> Consistent(d.properties.value[i]))
      && d.properties.value == LoadProperties(fetched.value.0)
      && d.boundaries.value == fetched.value.1
      && d.sectors.value == fetched.value.2
  {
    match fetched
    case None => Datasets(None, None, None)
    case Some((raws, bs, ss)) => Datasets(Some(LoadProperties(raws)), Some(bs), Some(ss))
  }

  /** `i` is the first boundary carrying `name`. */
  predicate IsFirstNamed(bs: seq<Boundary>, name: string, i: int)
  {
    0 <= i < |bs| && bs[i].name == name && forall j :: 0 <= j < i ==> bs[j].name != name
  }

  /** Exact, case-sensitive lookup of a boundary by name; the first match wins. */
  function FindBoundary(bs: seq<Boundary>, name: string): (r: Option<nat>)
    ensures r.Some? ==> IsFirstNamed(bs, name, r.value)
    ensures r.None? <==> forall j :: 0 <= j < |bs| ==> bs[j].name != name
    decreases |bs|
  {
    if |bs| == 0 then None
    else if bs[0].name == name then Some(0)
    else
      match FindBoundary(bs[1..], name)
      case None => None
      case Some(i) => Some(i + 1)
  }

  /** The property records whose community code equals `code`, in their original order. */
  function FilterByCode(ps: seq<Property>, code: string): (r: seq<Property>)
    ensures |r| <= |ps|
    ensures forall k :: 0 <= k < |r| ==> r[k].commCode == code
    decreases |ps|
  {
    if |ps| == 0 then []
    else if ps[0].commCode == code then [ps[0]] + FilterByCode(ps[1..], code)
    else FilterByCode(ps[1..], code)
  }

  /** The positions from `start` on of the records with community code `code`, increasing. */
  function MatchIndicesFrom(ps: seq<Property>, code: string, start: nat): (idx: seq<nat>)
    requires start <= |ps|
    ensures forall k :: 0 <= k < |idx| ==> start <= idx[k] < |ps| && ps[idx[k]].commCode == code
    ensures forall k, l :: 0 <= k < l < |idx| ==> idx[k] < idx[l]
    ensures forall i :: start <= i < |ps| && ps[i].commCode == code ==> i in idx
    decreases |ps| - start
  {
    if start == |ps| then []
    else if ps[start].commCode == code then [start] + MatchIndicesFrom(ps, code, start + 1)
    else MatchIndicesFrom(ps, code, start + 1)
  }

  /** The positions of all records with community code `code`, increasing. */
  function MatchIndices(ps: seq<Property>, code: string): seq<nat>
  {
    MatchIndicesFrom(ps, code, 0)
  }

  /** `f` lists the records at positions `m`. */
  predicate ListsPositions(f: seq<Property>, ps: seq<Property>, m: seq<nat>)
  {
    |f| == |m| && forall k :: 0 <= k < |f| ==> m[k] < |ps| && f[k] == ps[m[k]]
  }

  lemma ListsPositionsCons(f: seq<Property>, ps: seq<Property>, m: seq<nat>, i: nat)
    requires ListsPositions(f, ps, m) && i < |ps|
    ensures ListsPositions([ps[i]] + f, ps, [i] + m)
  {
    forall k | 0 <= k < |f| + 1 ensures ([ps[i]] + f)[k] == ps[([i] + m)[k]] {
      if k > 0 {
        assert ([ps[i]] + f)[k] == f[k - 1];
        assert ([i] + m)[k] == m[k - 1];
      }
    }
  }

  lemma {:induction false} FilterFrom(ps: seq<Property>, code: string, start: nat)
    requires start <= |ps|
    ensures ListsPositions(FilterByCode(ps[start..], code), ps, MatchIndicesFrom(ps, code, start))
    decreases |ps| - start
  {
    if start < |ps| {
      FilterFrom(ps, code, start + 1);
      var q := ps[start..];
      assert q[1..] == ps[start + 1..];
      assert q[0] == ps[start];
      var f := FilterByCode(ps[start + 1..], code);
      var m := MatchIndicesFrom(ps, code, start + 1);
      if ps[start].commCode == code {
        assert FilterByCode(q, code) == [ps[start]] + f;
        assert MatchIndicesFrom(ps, code, start) == [start] + m;
        ListsPositionsCons(f, ps, m, start);
      } else {
        assert FilterByCode(q, code) == f;
        assert MatchIndicesFrom(ps, code, start) == m;
      }
    }
  }

  /**
   * The filter keeps exactly the matching records, in their original order
   * and unmodified: its k-th result is the record at the k-th matching
   * position.
   */
  lemma FilterIsMatchingSubsequence(ps: seq<Property>, code: string)
    ensures |FilterByCode(ps, code)| == |MatchIndices(ps, code)|
    ensures forall k :: 0 <= k < |FilterByCode(ps, code)| ==>
      FilterByCode(ps, code)[k] == ps[MatchIndices(ps, code)[k]]
  {
    FilterFrom(ps, code, 0);
    assert ps[0..] == ps;
  }

  /** A record is kept exactly when it is one of the input records and carries the code. */
  lemma FilterMembership(ps: seq<Property>, code: string)
    ensures forall x :: x in FilterByCode(ps, code) <==> x in ps && x.commCode == code
  {
    var r := FilterByCode(ps, code);
    var idx := MatchIndices(ps, code);
    FilterIsMatchingSubsequence(ps, code);
    forall x | x in ps && x.commCode == code ensures x in r {
      var i :| 0 <= i < |ps| && ps[i] == x;
      var k :| 0 <= k < |idx| && idx[k] == i;
      assert r[k] == x;
    }
  }

  /** The filter is empty exactly when no record has the code. */
  lemma FilterEmptyIff(ps: seq<Property>, code: string)
    ensures FilterByCode(ps, code) == [] <==> forall i :: 0 <= i < |ps| ==> ps[i].commCode != code
  {
    FilterMembership(ps, code);
    var r := FilterByCode(ps, code);
    if r != [] {
      assert r[0] in r;
    }
    if exists i :: 0 <= i < |ps| && ps[i].commCode == code {
      var i :| 0 <= i < |ps| && ps[i].commCode == code;
      assert ps[i] in r;
    }
  }

  /** The request can be served: a non-empty selection and all three datasets loaded. */
  predicate Ready(selection: Option<string>, data: Datasets)
  {
    && selection.Some? && selection.value != ""
    && data.properties.Some? && data.boundaries.Some? && data.sectors.Some?
  }

  /**
   * `show_map` up to map drawing: the input check comes first, then the
   * boundary lookup, then the property filter; on success the display name
   * is the community name of the first matching property record.
   */
  function ShowMap(selection: Option<string>, data: Datasets): (r: MapOutcome)
    ensures r.BadRequest? <==> !Ready(selection, data)
    ensures r.BoundaryNotFound? <==>
      Ready(selection, data) && forall j :: 0 <= j < |data.boundaries.value| ==> data.boundaries.value[j].name != selection.value
    ensures r.BoundaryNotFound? ==> r.selection == selection.value
    ensures r.NoProperties? ==>
      && Ready(selection, data)
      && (exists i :: IsFirstNamed(data.boundaries.value, selection.value, i)
                      && r.name == data.boundaries.value[i].name
                      && r.code == data.boundaries.value[i].commCode)
      && forall j :: 0 <= j < |data.properties.value| ==> data.properties.value[j].commCode != r.code
    ensures r.Found? ==>
      && Ready(selection, data)
      && (exists i :: IsFirstNamed(data.boundaries.value, selection.value, i)
                      && r.boundary == data.boundaries.value[i])
      && r.code == r.boundary.commCode
      && r.properties == FilterByCode(data.properties.value, r.code)
      && |r.properties| >= 1
      && r.displayName == r.properties[0].commName
  {
    if !Ready(selection, data) then BadRequest
    else
      var name := selection.value;
      var bs := data.boundaries.value;
      match FindBoundary(bs, name)
      case None => BoundaryNotFound(name)
      case Some(i) =>
        var code := bs[i].commCode;
        var matching := FilterByCode(data.properties.value, code);
        if matching == [] then
          FilterEmptyIff(data.properties.value, code);
          NoProperties(bs[i].name, code)
        else Found(bs[i], code, matching, matching[0].commName)
  }

  /** Found results carry only consistent records when the loaded records were consistent. */
  lemma FoundKeepsSummaries(selection: Option<string>, data: Datasets)
    requires data.properties.Some?
    requires forall i :: 0 <= i < |data.properties.value| ==> Consistent(data.properties.value[i])
    ensures ShowMap(selection, data).Found? ==>
      forall k :: 0 <= k < |ShowMap(selection, data).properties| ==> Consistent(ShowMap(selection, data).properties[k])
  {
    var r := ShowMap(selection, data);
    if r.Found? {
      FilterMembership(data.properties.value, r.code);
      forall k | 0 <= k < |r.properties| ensures Consistent(r.properties[k]) {
        assert r.properties[k] in r.properties;
      }
    }
  }

  /** Whenever the selection names a boundary whose code some property carries, the request succeeds. */
  lemma ResolvableSelectionIsFound(selection: Option<string>, data: Datasets, i: nat, j: nat)
    requires Ready(selection, data)
    requires IsFirstNamed(data.boundaries.value, selection.value, i)
    requires j < |data.properties.value| && data.properties.value[j].commCode == data.boundaries.value[i].commCode
    ensures ShowMap(selection, data).Found?
    ensures ShowMap(selection, data).boundary == data.boundaries.value[i]
  {
    var r := ShowMap(selection, data);
    var bs := data.boundaries.value;
    if r.Found? {
      var i' :| IsFirstNamed(bs, selection.value, i') && r.boundary == bs[i'];
      FirstNamedUnique(bs, selection.value, i, i');
    }
  }

  lemma FirstNamedUnique(bs: seq<Boundary>, name: string, i: int, i': int)
    requires IsFirstNamed(bs, name, i) && IsFirstNamed(bs, name, i')
    ensures i == i'
  {
  }

  function Names(bs: seq<Boundary>): (ns: seq<string>)
    ensures |ns| == |bs| && forall i :: 0 <= i < |bs| ==> ns[i] == bs[i].name
  {
    seq(|bs|, i requires 0 <= i < |bs| => bs[i].name)
  }

  /**
   * The names offered for selection: no names when the boundaries are not
   * loaded, otherwise every distinct boundary name once, in increasing order.
   */
  function CommunityNames(boundaries: Option<seq<Boundary>>): (r: seq<string>)
    ensures StrictlySorted(r)
    ensures forall i, j :: 0 <= i < j < |r| ==> r[i] != r[j]
    ensures forall x :: x in r <==> boundaries.Some? && exists i :: 0 <= i < |boundaries.value| && boundaries.value[i].name == x
  {
    match boundaries
    case None => []
    case Some(bs) =>
      var r := SortedUnique(Names(bs));
      StrictlySortedDistinct(r);
      r
  }

  /** Every offered name resolves to a boundary. */
  lemma OfferedNamesResolve(bs: seq<Boundary>, name: string)
    requires name in CommunityNames(Some(bs))
    ensures FindBoundary(bs, name).Some?
  {
  }
}
