/**
 * `get_mesh_info`: walk a triangulated mesh corner by corner, build each
 * corner's attribute key, and index the keys through a table of unique
 * vertices.  Also the part of `read_input_file` that runs it on every mesh.
 */
module Meshes {
  import opened Common
  import opened Serializer
  import opened Layers
  import opened Indexing
  import opened Triangles

  /** A corner's attribute tuple `(pos, normal, tangent, bitangent, tcoord)`; also the `Vertex` record built from it. */
  datatype Vertex = Vertex(
    pos: seq<Float>,
    normal: seq<Float>,
    tangent: seq<Float>,
    bitangent: seq<Float>,
    tcoord: seq<Float>)

  /** Three components for each vector, two for the texture coordinate. */
  predicate Shaped(v: Vertex)
  {
    |v.pos| == 3 && |v.normal| == 3 && |v.tangent| == 3 && |v.bitangent| == 3 && |v.tcoord| == 2
  }

  /**
   * What the converter reads of an FBX mesh: its control points, each
   * polygon's control-point indices, and layer 0's normal, tangent,
   * binormal and UV elements (`None` when the mesh lacks one).
   */
  datatype Mesh = Mesh(
    controlPoints: seq<seq<Float>>,
    polygons: seq<seq<int>>,
    normals: Option<LayerElement>,
    tangents: Option<LayerElement>,
    binormals: Option<LayerElement>,
    uvs: Option<LayerElement>)

  /** The pair `(element_list, vertex_list)` that `get_mesh_info` returns. */
  type MeshInfo = Table<Vertex>

  /** `control_points[vertex_index]`: Python list indexing, where a negative index counts from the end. */
  function ListAt<T>(s: seq<T>, i: int): Result<T>
  {
    if 0 <= i < |s| then Success(s[i])
    else if -|s| <= i < 0 then Success(s[|s| + i])
    else Failure(IndexOutOfRange)
  }

  /** The key of the corner at control point `vertexIndex`, the `vertexCount`-th corner of the mesh. */
  function CornerKey(mesh: Mesh, vertexIndex: int, vertexCount: int): (r: Result<Vertex>)
    ensures r.Success? ==> Shaped(r.value)
  {
    var point :- ListAt(mesh.controlPoints, vertexIndex);
    var pos :- ToTuple(point, 3);
    var normal :- VertexInfo(mesh.normals, 3, vertexIndex, vertexCount);
    var tangent :- VertexInfo(mesh.tangents, 3, vertexIndex, vertexCount);
    var bitangent :- VertexInfo(mesh.binormals, 3, vertexIndex, vertexCount);
    var tcoord :- VertexInfo(mesh.uvs, 2, vertexIndex, vertexCount);
    Success(Vertex(pos, normal, tangent, bitangent, tcoord))
  }

  /** The key computation `get_mesh_info` performs for a corner of `mesh`. */
  function KeyOf(mesh: Mesh): (int, int) -> Result<Vertex>
  {
    (vertexIndex: int, vertexCount: int) => CornerKey(mesh, vertexIndex, vertexCount)
  }

  /** The keys of all corners of the mesh, in the order the loops visit them. */
  function MeshKeys(mesh: Mesh): Result<seq<Vertex>>
  {
    Keys(KeyOf(mesh), mesh.polygons)
  }

  /** What `get_mesh_info` returns: the element list and the unique vertices of the corner keys. */
  function MeshInfoOf(mesh: Mesh): Result<MeshInfo>
  {
    TableOf(KeyOf(mesh), mesh.polygons)
  }

  /**
   * What the source promises of `(element_list, vertex_list)`: three elements
   * per triangle, every element a position in the vertex list, the vertex
   * there equal to that corner's key, no vertex twice, every vertex one of
   * the keys and of the shape the format stores, and the vertices in the
   * order their keys first appear.
   */
  lemma MeshInfoProperties(mesh: Mesh)
    requires MeshInfoOf(mesh).Success?
    ensures var info, keys := MeshInfoOf(mesh).value, MeshKeys(mesh).value;
      && |info.elements| == |keys| == 3 * |mesh.polygons|
      && (forall k | 0 <= k < |keys| ::
            info.elements[k] < |info.vertices| && info.vertices[info.elements[k]] == keys[k])
      && NoDuplicates(info.vertices)
      && (forall v | v in info.vertices :: v in keys && Shaped(v))
      && (forall i, j | 0 <= i < j < |info.vertices| ::
            Position(keys, info.vertices[i]) < Position(keys, info.vertices[j]))
  {
    TableProperties(KeyOf(mesh), mesh.polygons);
    KeysSatisfy(KeyOf(mesh), mesh.polygons, |mesh.polygons|, Shaped);
  }

  /** `get_mesh_info(mesh)`: the polygon and corner loops, with the mesh's own key computation. */
  method GetMeshInfo(mesh: Mesh) returns (r: Result<MeshInfo>)
    ensures r == MeshInfoOf(mesh)
    ensures r.Success? ==> forall v | v in r.value.vertices :: Shaped(v)
  {
    r := IndexCorners(KeyOf(mesh), mesh.polygons);
    if r.Success? {
      MeshInfoProperties(mesh);
    }
  }

  /** The meshes of one scene, each indexed in turn; the first mesh that fails stops the conversion. */
  function MeshInfos(meshes: seq<Mesh>): Result<seq<MeshInfo>>
  {
    MapAll(meshes, MeshInfoOf)
  }

  /** The loop of `read_input_file` that collects `get_mesh_info` of each mesh node it reaches. */
  method ReadMeshes(meshes: seq<Mesh>) returns (r: Result<seq<MeshInfo>>)
    ensures r == MeshInfos(meshes)
    ensures r.Success? ==> |r.value| == |meshes| && forall k | 0 <= k < |meshes| :: Success(r.value[k]) == MeshInfoOf(meshes[k])
  {
    var result: seq<MeshInfo> := [];
    for i := 0 to |meshes|
      invariant MapAll(meshes[..i], MeshInfoOf) == Success(result)
    {
      assert meshes[..i + 1][..i] == meshes[..i];
      var info := GetMeshInfo(meshes[i]);
      if info.Failure? {
        MapAllFailure(meshes, MeshInfoOf, i + 1);
        return Failure(info.error);
      }
      result := result + [info.value];
    }
    assert meshes[..|meshes|] == meshes;
    r := Success(result);
    MapAllAt(meshes, MeshInfoOf);
  }
}
