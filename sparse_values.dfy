/** Flattening a sparse month grid into the list of its values, as the
    comprehension `[v for x in grid.values() for v in x.values()]` does. The
    model visits keys in an unspecified order: only the threshold choice
    reads the list, and it sorts it first. */
module SparseValues {
  import opened Raster

  /** `values` lists the entries of `m`: `keys` names, for each position, the
      distinct cell it came from, and every cell appears. */
  ghost predicate ListsEntries(m: SparseGrid, values: seq<real>, keys: seq<(int, int)>) {
    && |values| == |keys|
    && (forall i :: 0 <= i < |keys| ==> HasCell(m, keys[i].0, keys[i].1) && values[i] == m[keys[i].0][keys[i].1])
    && (forall i, j :: 0 <= i < j < |keys| ==> keys[i] != keys[j])
    && (forall p :: p in Entries(m) ==> p in keys)
  }

  /** A non-empty key set has a member to pick. */
  lemma HasMember(s: set<int>)
    requires s != {}
    ensures exists k :: k in s
  {
    if forall k :: k !in s { assert false; }
  }

  /** The inner comprehension over one column dictionary. */
  method FlattenColumn(m: SparseGrid, x: int) returns (values: seq<real>, ghost keys: seq<(int, int)>)
    requires x in m
    ensures |values| == |keys|
    ensures forall i :: 0 <= i < |keys| ==> keys[i].0 == x && keys[i].1 in m[x] && values[i] == m[x][keys[i].1]
    ensures forall i, j :: 0 <= i < j < |keys| ==> keys[i] != keys[j]
    ensures forall y :: y in m[x] ==> (x, y) in keys
  {
    var rest := m[x].Keys;
    values, keys := [], [];
    while rest != {}
      invariant rest <= m[x].Keys
      invariant |values| == |keys|
      invariant forall i :: 0 <= i < |keys| ==>
                  keys[i].0 == x && keys[i].1 in m[x] && keys[i].1 !in rest && values[i] == m[x][keys[i].1]
      invariant forall i, j :: 0 <= i < j < |keys| ==> keys[i] != keys[j]
      invariant forall k :: k in m[x] && k !in rest ==> (x, k) in keys
      decreases |rest|
    {
      HasMember(rest);
      var y :| y in rest;
      values, keys := values + [m[x][y]], keys + [(x, y)];
      rest := rest - {y};
    }
  }

  /** The whole comprehension: every stored value once. */
  method FlattenValues(m: SparseGrid) returns (values: seq<real>, ghost keys: seq<(int, int)>)
    ensures ListsEntries(m, values, keys)
  {
    var rest := m.Keys;
    values, keys := [], [];
    while rest != {}
      invariant rest <= m.Keys
      invariant |values| == |keys|
      invariant forall i :: 0 <= i < |keys| ==>
                  HasCell(m, keys[i].0, keys[i].1) && keys[i].0 !in rest && values[i] == m[keys[i].0][keys[i].1]
      invariant forall i, j :: 0 <= i < j < |keys| ==> keys[i] != keys[j]
      invariant forall a, b :: HasCell(m, a, b) && a !in rest ==> (a, b) in keys
      decreases |rest|
    {
      HasMember(rest);
      var x :| x in rest;
      var colValues, colKeys := FlattenColumn(m, x);
      values, keys := values + colValues, keys + colKeys;
      rest := rest - {x};
    }
  }
}
