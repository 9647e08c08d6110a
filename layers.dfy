/**
 * `get_vertex_info`: where a per-corner attribute (normal, tangent, binormal,
 * UV) is read from in an FBX layer element.
 *
 * The layer element's mapping mode chooses the index (the corner's control
 * point, or the running corner counter); its reference mode chooses whether
 * that index addresses the direct array or goes through the index array.
 */
module Layers {
  import opened Common
  import opened Serializer

  /** `FbxLayerElement.EMappingMode`. */
  datatype MappingMode = NoMapping | ByControlPoint | ByPolygonVertex | ByPolygon | ByEdge | AllSame

  /** `FbxLayerElement.EReferenceMode`. */
  datatype ReferenceMode = Direct | Index | IndexToDirect

  /** A layer element: its two modes, its direct array of vectors and its index array. */
  datatype LayerElement = LayerElement(
    mapping: MappingMode,
    reference: ReferenceMode,
    direct: seq<seq<Float>>,
    indices: seq<int>)

  /** `GetAt(i)` on an SDK array; reading outside the array is an error. */
  function At<T>(a: seq<T>, i: int): Result<T>
  {
    if 0 <= i < |a| then Success(a[i]) else Failure(IndexOutOfRange)
  }

  /** `fbx_to_tuple(item, size)`: the first `size` components (rounding is not modelled). */
  function ToTuple(item: seq<Float>, size: nat): (r: Result<seq<Float>>)
    ensures r.Success? <==> size <= |item|
    ensures r.Success? ==> |r.value| == size && r.value <= item
  {
    if size <= |item| then Success(item[..size]) else Failure(IndexOutOfRange)
  }

  /** The direct-array entry at `i`, as a tuple of `size` components. */
  function Fetch(direct: seq<seq<Float>>, i: int, size: nat): Result<seq<Float>>
  {
    var item :- At(direct, i);
    ToTuple(item, size)
  }

  /** The index the mapping mode selects: the control point, or the corner counter. */
  function MappedIndex(mapping: MappingMode, vertexIndex: int, vertexCount: int): Result<int>
  {
    match mapping
    case ByControlPoint => Success(vertexIndex)
    case ByPolygonVertex => Success(vertexCount)
    case _ => Failure(UnsupportedMappingMode)
  }

  /**
   * `get_vertex_info(info, size, vertex_index, vertex_count)`.  `None` stands
   * for a mesh without this layer, where the source's first method call fails.
   */
  function VertexInfo(info: Option<LayerElement>, size: nat, vertexIndex: int, vertexCount: int): (r: Result<seq<Float>>)
    ensures r.Success? ==> |r.value| == size
  {
    match info
    case None => Failure(MissingLayerElement)
    case Some(e) =>
      var position :- MappedIndex(e.mapping, vertexIndex, vertexCount);
      var index :- match e.reference
        case Direct => Success(position)
        case IndexToDirect => At(e.indices, position)
        case Index => Failure(UnsupportedReferenceMode);
      Fetch(e.direct, index, size)
  }

  /**
   * The selection table of `get_vertex_info`: the mapping mode picks the row
   * (control-point index or corner counter), the reference mode the column
   * (direct access or through the index array); any other mode is an error.
   */
  lemma VertexInfoTable(info: Option<LayerElement>, size: nat, vertexIndex: int, vertexCount: int)
    ensures var r := VertexInfo(info, size, vertexIndex, vertexCount);
      && (info.None? ==> r == Failure(MissingLayerElement))
      && (info.Some? && info.value.mapping !in {ByControlPoint, ByPolygonVertex} ==>
            r == Failure(UnsupportedMappingMode))
      && (info.Some? && info.value.mapping in {ByControlPoint, ByPolygonVertex} &&
          info.value.reference !in {Direct, IndexToDirect} ==>
            r == Failure(UnsupportedReferenceMode))
      && (info.Some? && info.value.mapping == ByControlPoint && info.value.reference == Direct ==>
            r == Fetch(info.value.direct, vertexIndex, size))
      && (info.Some? && info.value.mapping == ByControlPoint && info.value.reference == IndexToDirect ==>
            r == (var i :- At(info.value.indices, vertexIndex); Fetch(info.value.direct, i, size)))
      && (info.Some? && info.value.mapping == ByPolygonVertex && info.value.reference == Direct ==>
            r == Fetch(info.value.direct, vertexCount, size))
      && (info.Some? && info.value.mapping == ByPolygonVertex && info.value.reference == IndexToDirect ==>
            r == (var i :- At(info.value.indices, vertexCount); Fetch(info.value.direct, i, size)))
  {
  }
}
