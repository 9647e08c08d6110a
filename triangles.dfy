/**
 * The corner walk of `get_mesh_info`, for any way of computing a corner's key.
 *
 * The converter visits the polygons in order, refuses any polygon that is not
 * a triangle, and for each of the three corners computes a key from the
 * corner's control-point index and the running corner counter.  The keys are
 * indexed through a dictionary, a table of unique keys and an element list.
 * Here the key computation is a parameter `key(vertexIndex, vertexCount)`;
 * the mesh module supplies the real one.
 */
module Triangles {
  import opened Common
  import opened Indexing

  /** The pair `(element_list, vertex_list)`: one table position per corner, and the unique keys. */
  datatype Table<K> = Table(elements: seq<nat>, vertices: seq<K>)

  /** The keys of the first `j` corners of `polygon`, whose first corner is corner number `base`. */
  function PolygonKeys<K>(key: (int, int) -> Result<K>, polygon: seq<int>, base: nat, j: nat): (r: Result<seq<K>>)
    requires j <= |polygon|
    ensures r.Success? ==> |r.value| == j
  {
    if j == 0 then Success([])
    else
      var init :- PolygonKeys(key, polygon, base, j - 1);
      var last :- key(polygon[j - 1], base + j - 1);
      Success(init + [last])
  }

  /** The keys of every corner of the first `i` polygons; a polygon that is not a triangle stops it. */
  function KeysUpTo<K>(key: (int, int) -> Result<K>, polygons: seq<seq<int>>, i: nat): (r: Result<seq<K>>)
    requires i <= |polygons|
    ensures r.Success? ==> |r.value| == 3 * i
  {
    if i == 0 then Success([])
    else
      var init :- KeysUpTo(key, polygons, i - 1);
      var polygon := polygons[i - 1];
      if |polygon| != 3 then Failure(NotTriangulated)
      else
        var corners :- PolygonKeys(key, polygon, 3 * (i - 1), 3);
        Success(init + corners)
  }

  /** The keys of all corners, in the order the loops visit them. */
  function Keys<K>(key: (int, int) -> Result<K>, polygons: seq<seq<int>>): Result<seq<K>>
  {
    KeysUpTo(key, polygons, |polygons|)
  }

  /** What the walk returns: the element list and the unique keys. */
  function TableOf<K(==)>(key: (int, int) -> Result<K>, polygons: seq<seq<int>>): Result<Table<K>>
  {
    var keys :- Keys(key, polygons);
    Success(Table(Indices(keys), Dedup(keys)))
  }

  lemma {:induction false} PolygonKeysFailure<K>(key: (int, int) -> Result<K>, polygon: seq<int>, base: nat, j: nat)
    requires j <= |polygon|
    requires PolygonKeys(key, polygon, base, j).Failure?
    ensures PolygonKeys(key, polygon, base, |polygon|) == Failure(PolygonKeys(key, polygon, base, j).error)
    decreases |polygon| - j
  {
    if j < |polygon| {
      PolygonKeysFailure(key, polygon, base, j + 1);
    }
  }

  lemma {:induction false} KeysFailure<K>(key: (int, int) -> Result<K>, polygons: seq<seq<int>>, i: nat)
    requires i <= |polygons|
    requires KeysUpTo(key, polygons, i).Failure?
    ensures Keys(key, polygons) == Failure(KeysUpTo(key, polygons, i).error)
    decreases |polygons| - i
  {
    if i < |polygons| {
      KeysFailure(key, polygons, i + 1);
    }
  }

  /** One more corner of a polygon extends its keys. */
  lemma CornerStep<K>(key: (int, int) -> Result<K>, polygon: seq<int>, base: nat, j: nat, corners: seq<K>,
                     vertexIndex: int, vertexCount: int, k: K)
    requires j < |polygon| && vertexIndex == polygon[j] && vertexCount == base + j
    requires PolygonKeys(key, polygon, base, j) == Success(corners)
    requires key(vertexIndex, vertexCount) == Success(k)
    ensures PolygonKeys(key, polygon, base, j + 1) == Success(corners + [k])
  {
  }

  /** One more triangle extends the keys by its three corners. */
  lemma PolygonStep<K>(key: (int, int) -> Result<K>, polygons: seq<seq<int>>, i: nat, keys: seq<K>, corners: seq<K>)
    requires i < |polygons| && |polygons[i]| == 3
    requires KeysUpTo(key, polygons, i) == Success(keys)
    requires PolygonKeys(key, polygons[i], 3 * i, 3) == Success(corners)
    ensures KeysUpTo(key, polygons, i + 1) == Success(keys + corners)
  {
  }

  /** A corner whose key cannot be computed stops its polygon with that error. */
  lemma CornerFails<K>(key: (int, int) -> Result<K>, polygon: seq<int>, base: nat, j: nat, corners: seq<K>,
                      vertexIndex: int, vertexCount: int)
    requires j < |polygon| && vertexIndex == polygon[j] && vertexCount == base + j
    requires PolygonKeys(key, polygon, base, j) == Success(corners)
    requires key(vertexIndex, vertexCount).Failure?
    ensures PolygonKeys(key, polygon, base, |polygon|) == Failure(key(vertexIndex, vertexCount).error)
  {
    PolygonKeysFailure(key, polygon, base, j + 1);
  }

  /** A triangle one of whose corners fails stops the whole walk with that error. */
  lemma TriangleFails<K>(key: (int, int) -> Result<K>, polygons: seq<seq<int>>, i: nat, keys: seq<K>)
    requires i < |polygons| && |polygons[i]| == 3
    requires KeysUpTo(key, polygons, i) == Success(keys)
    requires PolygonKeys(key, polygons[i], 3 * i, 3).Failure?
    ensures TableOf(key, polygons) == Failure(PolygonKeys(key, polygons[i], 3 * i, 3).error)
  {
    KeysFailure(key, polygons, i + 1);
  }

  /** A polygon that is not a triangle stops the walk with `NotTriangulated`. */
  lemma NonTriangleRefused<K>(key: (int, int) -> Result<K>, polygons: seq<seq<int>>, i: nat)
    requires i < |polygons| && |polygons[i]| != 3
    requires KeysUpTo(key, polygons, i).Success?
    ensures TableOf(key, polygons) == Failure(NotTriangulated)
  {
    KeysFailure(key, polygons, i + 1);
  }

  /** Every key the walk collects is one the key function produced, so it has every property all keys share. */
  lemma {:induction false} KeysSatisfy<K>(key: (int, int) -> Result<K>, polygons: seq<seq<int>>, i: nat, P: K -> bool)
    requires i <= |polygons|
    requires forall vertexIndex, vertexCount :: key(vertexIndex, vertexCount).Success? ==> P(key(vertexIndex, vertexCount).value)
    requires KeysUpTo(key, polygons, i).Success?
    ensures forall k | 0 <= k < 3 * i :: P(KeysUpTo(key, polygons, i).value[k])
  {
    if i > 0 {
      KeysSatisfy(key, polygons, i - 1, P);
      var polygon := polygons[i - 1];
      var init := KeysUpTo(key, polygons, i - 1).value;
      var corners := PolygonKeys(key, polygon, 3 * (i - 1), 3).value;
      var p2 := PolygonKeys(key, polygon, 3 * (i - 1), 2).value;
      var p1 := PolygonKeys(key, polygon, 3 * (i - 1), 1).value;
      assert corners == p2 + [key(polygon[2], 3 * (i - 1) + 2).value];
      assert p2 == p1 + [key(polygon[1], 3 * (i - 1) + 1).value];
      assert p1 == [key(polygon[0], 3 * (i - 1)).value];
      assert KeysUpTo(key, polygons, i).value == init + corners;
    }
  }

  /**
   * What the source promises of `(element_list, vertex_list)`: three elements
   * per triangle, every element a position in the vertex list, the key there
   * equal to that corner's key, no key twice, every listed key one of the
   * corners' keys, and the keys in the order they first appear.
   */
  lemma TableProperties<K>(key: (int, int) -> Result<K>, polygons: seq<seq<int>>)
    requires TableOf(key, polygons).Success?
    ensures var t, keys := TableOf(key, polygons).value, Keys(key, polygons).value;
      && |t.elements| == |keys| == 3 * |polygons|
      && (forall k | 0 <= k < |keys| ::
            t.elements[k] < |t.vertices| && t.vertices[t.elements[k]] == keys[k])
      && NoDuplicates(t.vertices)
      && (forall v | v in t.vertices :: v in keys)
      && (forall i, j | 0 <= i < j < |t.vertices| ::
            Position(keys, t.vertices[i]) < Position(keys, t.vertices[j]))
  {
    var keys := Keys(key, polygons).value;
    IndicesDecode(keys);
    DedupFirstAppearance(keys);
  }

  /**
   * One corner's entry: a key not yet in `vertexMap` is appended to the
   * vertex list and recorded at the next position; the key's position is
   * appended to the element list either way.
   */
  method AddCorner<K(==)>(ghost keys: seq<K>, vertexMap: map<K, nat>, vertexList: seq<K>, elementList: seq<nat>, vertex: K)
    returns (vertexMap': map<K, nat>, vertexList': seq<K>, elementList': seq<nat>)
    requires Indexed(keys, vertexMap, vertexList, elementList)
    ensures Indexed(keys + [vertex], vertexMap', vertexList', elementList')
    ensures vertex in keys ==> vertexMap' == vertexMap && vertexList' == vertexList
    ensures vertex !in keys ==> vertexList' == vertexList + [vertex]
  {
    IndexedStep(keys, vertexMap, vertexList, elementList, vertex);
    vertexMap', vertexList' := vertexMap, vertexList;
    if vertex !in vertexMap' {
      vertexList' := vertexList' + [vertex];
      vertexMap' := vertexMap'[vertex := |vertexMap'|];
    }
    elementList' := elementList + [vertexMap'[vertex]];
  }

  /**
   * The corner loop of `get_mesh_info` for one triangle whose first corner is
   * corner number `base`: each corner's key is computed and entered.
   */
  method IndexTriangle<K(==)>(key: (int, int) -> Result<K>, polygon: seq<int>, base: nat, ghost seen: seq<K>,
                              vertexMap: map<K, nat>, vertexList: seq<K>, elementList: seq<nat>)
    returns (o: Outcome, vertexMap': map<K, nat>, vertexList': seq<K>, elementList': seq<nat>)
    requires |polygon| == 3
    requires Indexed(seen, vertexMap, vertexList, elementList)
    ensures o.Pass? <==> PolygonKeys(key, polygon, base, 3).Success?
    ensures o.Fail? ==> PolygonKeys(key, polygon, base, 3) == Failure(o.error)
    ensures o.Pass? ==> Indexed(seen + PolygonKeys(key, polygon, base, 3).value, vertexMap', vertexList', elementList')
  {
    vertexMap', vertexList', elementList' := vertexMap, vertexList, elementList;
    var vertexCount := base;
    ghost var corners: seq<K> := [];
    ghost var keys := seen;
    for j := 0 to 3
      invariant PolygonKeys(key, polygon, base, j) == Success(corners)
      invariant keys == seen + corners
      invariant vertexCount == base + j
      invariant Indexed(keys, vertexMap', vertexList', elementList')
    {
      var vertexIndex := polygon[j];
      var k := key(vertexIndex, vertexCount);
      if k.Failure? {
        CornerFails(key, polygon, base, j, corners, vertexIndex, vertexCount);
        return Fail(k.error), vertexMap', vertexList', elementList';
      }
      var vertex := k.value;
      CornerStep(key, polygon, base, j, corners, vertexIndex, vertexCount, vertex);
      vertexMap', vertexList', elementList' := AddCorner(keys, vertexMap', vertexList', elementList', vertex);
      vertexCount := vertexCount + 1;
      keys := keys + [vertex];
      corners := corners + [vertex];
    }
    o := Pass;
  }

  /**
   * The polygon loop of `get_mesh_info` over the dictionary `vertexMap`, the
   * vertex list and the element list.
   */
  method IndexCorners<K(==)>(key: (int, int) -> Result<K>, polygons: seq<seq<int>>) returns (r: Result<Table<K>>)
    ensures r == TableOf(key, polygons)
    ensures r.Success? ==>
      && |r.value.elements| == 3 * |polygons|
      && (forall k | 0 <= k < |r.value.elements| ::
            r.value.elements[k] < |r.value.vertices| &&
            r.value.vertices[r.value.elements[k]] == Keys(key, polygons).value[k])
      && NoDuplicates(r.value.vertices)
  {
    var vertexMap: map<K, nat> := map[];
    var vertexList: seq<K> := [];
    var elementList: seq<nat> := [];
    ghost var seen: seq<K> := [];
    for i := 0 to |polygons|
      invariant KeysUpTo(key, polygons, i) == Success(seen)
      invariant Indexed(seen, vertexMap, vertexList, elementList)
    {
      var polygon := polygons[i];
      if |polygon| != 3 {
        NonTriangleRefused(key, polygons, i);
        return Failure(NotTriangulated);
      }
      var o;
      o, vertexMap, vertexList, elementList := IndexTriangle(key, polygon, 3 * i, seen, vertexMap, vertexList, elementList);
      if o.Fail? {
        TriangleFails(key, polygons, i, seen);
        return Failure(o.error);
      }
      PolygonStep(key, polygons, i, seen, PolygonKeys(key, polygon, 3 * i, 3).value);
      seen := seen + PolygonKeys(key, polygon, 3 * i, 3).value;
    }
    assert Keys(key, polygons) == Success(seen);
    r := Success(Table(elementList, vertexList));
    TableProperties(key, polygons);
  }
}
