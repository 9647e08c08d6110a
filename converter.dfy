/**
 * `main`: the .rmod file the converter writes.
 *
 * The layout is the magic "RUSTGAME", the diffuse, specular and normal
 * texture blocks, the shininess as a 32-bit float, the number of vertices,
 * fourteen 32-bit floats per vertex (position, normal, tangent, bitangent,
 * texture coordinate), the number of elements, and every element as an
 * unsigned 32-bit integer.  Only the first mesh of the scene is written.
 *
 * The FBX scene file is a parameter `scenes`: the meshes, in traversal
 * order, of every file that loads.
 */
module Converter {
  import opened Common
  import opened Bytes
  import opened Serializer
  import opened Layers
  import opened Indexing
  import opened Triangles
  import opened Meshes
  import opened Arguments

  /** "RUSTGAME", the magic header. */
  const Magic: seq<byte> := [82, 85, 83, 84, 71, 65, 77, 69]

  /** The file `main` writes and the name it writes it under. */
  datatype Rmod = Rmod(outputName: string, bytes: seq<byte>)

  /** The floats written for one vertex, in the order of the fourteen `serialize_float32` calls. */
  function Components(v: Vertex): seq<Float>
  {
    v.pos + v.normal + v.tangent + v.bitangent + v.tcoord
  }

  /** For a vertex of the stored shape these are `pos[0]`, ..., `tcoord[1]`, fourteen floats. */
  lemma ComponentsAreIndexed(v: Vertex)
    requires Shaped(v)
    ensures |Components(v)| == 14
    ensures Components(v) == [v.pos[0], v.pos[1], v.pos[2],
                              v.normal[0], v.normal[1], v.normal[2],
                              v.tangent[0], v.tangent[1], v.tangent[2],
                              v.bitangent[0], v.bitangent[1], v.bitangent[2],
                              v.tcoord[0], v.tcoord[1]]
  {
  }

  /** The bytes one pass of the vertex loop appends. */
  function VertexEncoding(v: Vertex): Result<seq<byte>>
  {
    ConcatAll(Components(v), Float32Encoding)
  }

  /** The bytes one pass of the element loop appends. */
  function ElementEncoding(e: nat): Result<seq<byte>>
  {
    Uint32Encoding(e)
  }

  /** A list as the file stores it: its length as an unsigned 32-bit integer, then its items. */
  function CountedEncoding<T>(s: seq<T>, enc: T -> Result<seq<byte>>): Result<seq<byte>>
  {
    var count :- Uint32Encoding(|s|);
    var items :- ConcatAll(s, enc);
    Success(count + items)
  }

  /** The part of the file after the shininess: the vertex list, then the element list. */
  function MeshEncoding(info: MeshInfo): Result<seq<byte>>
  {
    var vertices :- CountedEncoding(info.vertices, VertexEncoding);
    var elements :- CountedEncoding(info.elements, ElementEncoding);
    Success(vertices + elements)
  }

  /** `LoadScene(sdk_manager, scene, fname)`: the meshes of the file, or "Unable to load FBX file". */
  function SceneMeshes(scenes: map<string, seq<Mesh>>, name: string): Result<seq<Mesh>>
  {
    if name in scenes then Success(scenes[name]) else Failure(CannotLoadScene(name))
  }

  /** `read_input_file(input_name)[0]`: a scene without meshes raises `IndexError`. */
  function FirstInfo(infos: seq<MeshInfo>): Result<MeshInfo>
  {
    if |infos| == 0 then Failure(IndexOutOfRange) else Success(infos[0])
  }

  /** What `main` writes, or the error that stops it, in the order `main` does the work. */
  function ConvertSpec(argv: seq<string>, parse: string -> Option<Float>,
                       images: map<string, Image>, scenes: map<string, seq<Mesh>>): Result<Rmod>
  {
    var inv :- HandleArguments(argv, parse);
    var diffuse :- TextureEncoding(inv.diffuse, images);
    var specular :- TextureEncoding(inv.specular, images);
    var normal :- TextureEncoding(inv.normal, images);
    var shininess :- Float32Encoding(inv.shininess);
    var meshes :- SceneMeshes(scenes, inv.inputName);
    var infos :- MeshInfos(meshes);
    var info :- FirstInfo(infos);
    var body :- MeshEncoding(info);
    Success(Rmod(inv.outputName, Magic + diffuse + specular + normal + shininess + body))
  }

  /** A vertex can be written exactly when none of its floats exceeds the bound. */
  lemma VertexEncodingSucceeds(v: Vertex)
    ensures VertexEncoding(v).Success? <==> forall k | 0 <= k < |Components(v)| :: !Components(v)[k].exceedsBound
  {
    ConcatAllSucceeds(Components(v), Float32Encoding);
  }

  /** A written vertex is 56 bytes, its `k`-th float packed at offset `4 * k`. */
  lemma VertexEncodingLayout(v: Vertex)
    requires Shaped(v) && VertexEncoding(v).Success?
    ensures |VertexEncoding(v).value| == 56
    ensures forall k | 0 <= k < 14 :: VertexEncoding(v).value[4 * k .. 4 * k + 4] == Components(v)[k].packed
  {
    var c := Components(v);
    VertexEncodingSucceeds(v);
    ConcatAllFixed(c, Float32Encoding, 4);
    StrideIsProduct(4, 14);
    forall k | 0 <= k < 14
      ensures VertexEncoding(v).value[4 * k .. 4 * k + 4] == c[k].packed
    {
      StrideIsProduct(4, k);
    }
  }

  /** Every vertex of the stored shape is written as 56 bytes. */
  lemma VerticesLength(vertices: seq<Vertex>)
    requires forall k | 0 <= k < |vertices| :: Shaped(vertices[k])
    requires ConcatAll(vertices, VertexEncoding).Success?
    ensures |ConcatAll(vertices, VertexEncoding).value| == 56 * |vertices|
    ensures forall k | 0 <= k < |vertices| ::
      56 * k + 56 <= 56 * |vertices| && VertexEncoding(vertices[k]).Success? &&
      ConcatAll(vertices, VertexEncoding).value[56 * k .. 56 * k + 56] == VertexEncoding(vertices[k]).value
  {
    ConcatAllSucceeds(vertices, VertexEncoding);
    forall k | 0 <= k < |vertices|
      ensures VertexEncoding(vertices[k]).Success? && |VertexEncoding(vertices[k]).value| == 56
    {
      VertexEncodingLayout(vertices[k]);
    }
    ConcatAllFixed(vertices, VertexEncoding, 56);
    StrideIsProduct(56, |vertices|);
    forall k | 0 <= k < |vertices|
      ensures 56 * k + 56 <= 56 * |vertices|
      ensures ConcatAll(vertices, VertexEncoding).value[56 * k .. 56 * k + 56] == VertexEncoding(vertices[k]).value
    {
      StrideIsProduct(56, k);
    }
  }

  /** Every element is written as four bytes that read back as the element. */
  lemma ElementsLayout(elements: seq<nat>)
    requires ConcatAll(elements, ElementEncoding).Success?
    ensures |ConcatAll(elements, ElementEncoding).value| == 4 * |elements|
    ensures forall k | 0 <= k < |elements| ::
      4 * k + 4 <= 4 * |elements| &&
      DecodeUint32(ConcatAll(elements, ElementEncoding).value[4 * k .. 4 * k + 4]) == elements[k]
  {
    ConcatAllSucceeds(elements, ElementEncoding);
    ConcatAllFixed(elements, ElementEncoding, 4);
    StrideIsProduct(4, |elements|);
    forall k | 0 <= k < |elements|
      ensures 4 * k + 4 <= 4 * |elements|
      ensures DecodeUint32(ConcatAll(elements, ElementEncoding).value[4 * k .. 4 * k + 4]) == elements[k]
    {
      StrideIsProduct(4, k);
      Uint32RoundTrip(elements[k]);
    }
  }

  /** The four parts of the mesh part of the file, each written successfully. */
  lemma MeshEncodingParts(info: MeshInfo)
    requires MeshEncoding(info).Success?
    ensures Uint32InRange(|info.vertices|) && Uint32InRange(|info.elements|)
    ensures ConcatAll(info.vertices, VertexEncoding).Success?
    ensures ConcatAll(info.elements, ElementEncoding).Success?
    ensures MeshEncoding(info).value ==
      Uint32Bytes(|info.vertices|) + ConcatAll(info.vertices, VertexEncoding).value
      + Uint32Bytes(|info.elements|) + ConcatAll(info.elements, ElementEncoding).value
  {
    assert CountedEncoding(info.vertices, VertexEncoding).Success?;
    assert CountedEncoding(info.elements, ElementEncoding).Success?;
  }

  /** The vertex count at offset 0, then vertex `k` at offset `4 + 56 * k`. */
  lemma MeshVerticesLayout(info: MeshInfo)
    requires forall k | 0 <= k < |info.vertices| :: Shaped(info.vertices[k])
    requires MeshEncoding(info).Success?
    ensures var out, nv := MeshEncoding(info).value, |info.vertices|;
      && |out| >= 4 + 56 * nv
      && DecodeUint32(out[..4]) == nv
      && (forall k | 0 <= k < nv ::
            VertexEncoding(info.vertices[k]).Success? &&
            out[4 + 56 * k .. 60 + 56 * k] == VertexEncoding(info.vertices[k]).value)
  {
    var nv := |info.vertices|;
    MeshEncodingParts(info);
    var vc := Uint32Bytes(nv);
    var vs := ConcatAll(info.vertices, VertexEncoding).value;
    var rest := Uint32Bytes(|info.elements|) + ConcatAll(info.elements, ElementEncoding).value;
    var out := MeshEncoding(info).value;
    assert out == vc + vs + rest;
    VerticesLength(info.vertices);
    Uint32RoundTrip(nv);
    assert out[..4] == vc;
    forall k | 0 <= k < nv
      ensures out[4 + 56 * k .. 60 + 56 * k] == VertexEncoding(info.vertices[k]).value
    {
      assert out[4 + 56 * k .. 60 + 56 * k] == vs[56 * k .. 56 * k + 56];
    }
  }

  /** After the vertices, the element count, then element `k` four bytes at a time. */
  lemma MeshElementsLayout(info: MeshInfo)
    requires forall k | 0 <= k < |info.vertices| :: Shaped(info.vertices[k])
    requires MeshEncoding(info).Success?
    ensures var out, nv, ne := MeshEncoding(info).value, |info.vertices|, |info.elements|;
      && |out| == 8 + 56 * nv + 4 * ne
      && DecodeUint32(out[4 + 56 * nv .. 8 + 56 * nv]) == ne
      && (forall k | 0 <= k < ne :: DecodeUint32(out[8 + 56 * nv + 4 * k .. 12 + 56 * nv + 4 * k]) == info.elements[k])
  {
    var nv, ne := |info.vertices|, |info.elements|;
    MeshEncodingParts(info);
    var front := Uint32Bytes(nv) + ConcatAll(info.vertices, VertexEncoding).value;
    var ec := Uint32Bytes(ne);
    var es := ConcatAll(info.elements, ElementEncoding).value;
    var out := MeshEncoding(info).value;
    assert out == front + ec + es;
    VerticesLength(info.vertices);
    ElementsLayout(info.elements);
    Uint32RoundTrip(ne);
    assert |front| == 4 + 56 * nv;
    assert out[4 + 56 * nv .. 8 + 56 * nv] == ec;
    forall k | 0 <= k < ne
      ensures DecodeUint32(out[8 + 56 * nv + 4 * k .. 12 + 56 * nv + 4 * k]) == info.elements[k]
    {
      assert out[8 + 56 * nv + 4 * k .. 12 + 56 * nv + 4 * k] == es[4 * k .. 4 * k + 4];
    }
  }

  /**
   * The mesh part of the file: the vertex count at offset 0, vertex `k` at
   * `4 + 56 * k`, the element count after the vertices, and element `k` four
   * bytes at a time after that; the counts and elements read back as written.
   */
  lemma MeshEncodingLayout(info: MeshInfo)
    requires forall k | 0 <= k < |info.vertices| :: Shaped(info.vertices[k])
    requires MeshEncoding(info).Success?
    ensures var out, nv, ne := MeshEncoding(info).value, |info.vertices|, |info.elements|;
      && |out| == 8 + 56 * nv + 4 * ne
      && DecodeUint32(out[..4]) == nv
      && (forall k | 0 <= k < nv ::
            VertexEncoding(info.vertices[k]).Success? &&
            out[4 + 56 * k .. 60 + 56 * k] == VertexEncoding(info.vertices[k]).value)
      && DecodeUint32(out[4 + 56 * nv .. 8 + 56 * nv]) == ne
      && (forall k | 0 <= k < ne :: DecodeUint32(out[8 + 56 * nv + 4 * k .. 12 + 56 * nv + 4 * k]) == info.elements[k])
  {
    MeshVerticesLayout(info);
    MeshElementsLayout(info);
  }

  /** Element `k` as a reader of the mesh part finds it, after the count and `nv` vertices. */
  function ElementRead(out: seq<byte>, nv: nat, k: nat): nat
    requires 12 + 56 * nv + 4 * k <= |out|
  {
    DecodeUint32(out[8 + 56 * nv + 4 * k .. 12 + 56 * nv + 4 * k])
  }

  /**
   * What a reader of the mesh part `out` finds, for a table of `nv` vertices
   * indexing `keys`: the vertex count first, and each element `k` below it,
   * naming the vertex block that holds the encoding of `keys[k]`.
   */
  predicate ReadsBack(out: seq<byte>, nv: nat, keys: seq<Vertex>)
  {
    && |out| == 8 + 56 * nv + 4 * |keys|
    && DecodeUint32(out[..4]) == nv
    && forall k | 0 <= k < |keys| ::
         && ElementRead(out, nv, k) < nv
         && VertexEncoding(keys[k]).Success?
         && out[4 + 56 * ElementRead(out, nv, k) .. 60 + 56 * ElementRead(out, nv, k)] == VertexEncoding(keys[k]).value
  }

  /** The mesh part of the file of a table that indexes `keys` reads back as `keys`. */
  lemma TableReadBack(info: MeshInfo, keys: seq<Vertex>)
    requires forall k | 0 <= k < |info.vertices| :: Shaped(info.vertices[k])
    requires |info.elements| == |keys|
    requires forall k | 0 <= k < |keys| :: info.elements[k] < |info.vertices| && info.vertices[info.elements[k]] == keys[k]
    requires MeshEncoding(info).Success?
    ensures ReadsBack(MeshEncoding(info).value, |info.vertices|, keys)
  {
    MeshVerticesLayout(info);
    MeshElementsLayout(info);
  }

  /**
   * The mesh part of a mesh's file reads back as the mesh's corners: element
   * `k` names a vertex block, and that block holds corner `k`'s attributes.
   */
  lemma MeshReadBack(mesh: Mesh)
    requires MeshInfoOf(mesh).Success?
    requires MeshEncoding(MeshInfoOf(mesh).value).Success?
    ensures ReadsBack(MeshEncoding(MeshInfoOf(mesh).value).value, |MeshInfoOf(mesh).value.vertices|, MeshKeys(mesh).value)
  {
    var info, keys := MeshInfoOf(mesh).value, MeshKeys(mesh).value;
    assert && (forall k | 0 <= k < |info.vertices| :: Shaped(info.vertices[k]))
           && |info.elements| == |keys|
           && (forall k | 0 <= k < |keys| :: info.elements[k] < |info.vertices| && info.vertices[info.elements[k]] == keys[k])
    by {
      MeshInfoProperties(mesh);
      assert forall k | 0 <= k < |info.vertices| :: info.vertices[k] in info.vertices;
    }
    TableReadBack(info, keys);
  }

  /** Every file the converter writes begins with "RUSTGAME". */
  lemma ConvertStartsWithMagic(argv: seq<string>, parse: string -> Option<Float>,
                               images: map<string, Image>, scenes: map<string, seq<Mesh>>)
    requires ConvertSpec(argv, parse, images, scenes).Success?
    ensures |ConvertSpec(argv, parse, images, scenes).value.bytes| >= 8
    ensures ConvertSpec(argv, parse, images, scenes).value.bytes[..8] == Magic
  {
  }

  /** Only 6 or 7 command-line arguments start a conversion. */
  lemma ConvertNeedsSixOrSeven(argv: seq<string>, parse: string -> Option<Float>,
                               images: map<string, Image>, scenes: map<string, seq<Mesh>>)
    ensures |argv| != 6 && |argv| != 7 ==> ConvertSpec(argv, parse, images, scenes) == Failure(InvalidInvocation)
    ensures ConvertSpec(argv, parse, images, scenes).Success? ==> |argv| == 6 || |argv| == 7
  {
  }

  /** The mesh part of the file is 8 + 56 * |vertices| + 4 * |elements| bytes. */
  lemma MeshEncodingLength(info: MeshInfo)
    requires forall k | 0 <= k < |info.vertices| :: Shaped(info.vertices[k])
    requires MeshEncoding(info).Success?
    ensures |MeshEncoding(info).value| == 8 + 56 * |info.vertices| + 4 * |info.elements|
  {
    MeshEncodingParts(info);
    VerticesLength(info.vertices);
    ElementsLayout(info.elements);
  }

  /** The first mesh of a scene that indexes is indexed into vertices of the stored shape. */
  lemma FirstMeshShaped(meshes: seq<Mesh>)
    requires MeshInfos(meshes).Success? && |meshes| > 0
    ensures MeshInfoOf(meshes[0]).Success?
    ensures MeshInfos(meshes).value[0] == MeshInfoOf(meshes[0]).value
    ensures var info := MeshInfoOf(meshes[0]).value;
      forall k | 0 <= k < |info.vertices| :: Shaped(info.vertices[k])
  {
    MapAllAt(meshes, MeshInfoOf);
    var info := MeshInfoOf(meshes[0]).value;
    MeshInfoProperties(meshes[0]);
    assert forall k | 0 <= k < |info.vertices| :: info.vertices[k] in info.vertices;
  }

  /**
   * The whole file: magic, the three texture blocks, the shininess, then the
   * first mesh's part, which is 8 + 56 * |vertices| + 4 * |elements| bytes.
   */
  lemma ConvertLayout(argv: seq<string>, parse: string -> Option<Float>,
                      images: map<string, Image>, scenes: map<string, seq<Mesh>>)
    requires ConvertSpec(argv, parse, images, scenes).Success?
    ensures var inv := HandleArguments(argv, parse).value;
      && inv.inputName in scenes
      && var meshes := scenes[inv.inputName];
      && |meshes| > 0
      && MeshInfoOf(meshes[0]).Success?
      && var info := MeshInfoOf(meshes[0]).value;
      && MeshEncoding(info).Success?
      && TextureEncoding(inv.diffuse, images).Success?
      && TextureEncoding(inv.specular, images).Success?
      && TextureEncoding(inv.normal, images).Success?
      && var out := ConvertSpec(argv, parse, images, scenes).value;
      && out.outputName == inv.outputName
      && out.bytes ==
           Magic + TextureEncoding(inv.diffuse, images).value + TextureEncoding(inv.specular, images).value
           + TextureEncoding(inv.normal, images).value + inv.shininess.packed + MeshEncoding(info).value
      && |out.bytes| ==
           8 + TextureSize(inv.diffuse, images) + TextureSize(inv.specular, images)
           + TextureSize(inv.normal, images) + 4 + 8 + 56 * |info.vertices| + 4 * |info.elements|
  {
    var inv := HandleArguments(argv, parse).value;
    var meshes := scenes[inv.inputName];
    FirstMeshShaped(meshes);
    MeshEncodingParts(MeshInfoOf(meshes[0]).value);
    MeshEncodingLength(MeshInfoOf(meshes[0]).value);
    TextureSizeIsLength(inv.diffuse, images);
    TextureSizeIsLength(inv.specular, images);
    TextureSizeIsLength(inv.normal, images);
  }

  /**
   * After the header (magic, textures, shininess), the file holds the first
   * mesh's vertex count and elements, and element `k` names the vertex block
   * holding corner `k`'s attributes.
   */
  lemma ConvertReadsBack(argv: seq<string>, parse: string -> Option<Float>,
                         images: map<string, Image>, scenes: map<string, seq<Mesh>>)
    requires ConvertSpec(argv, parse, images, scenes).Success?
    ensures var inv := HandleArguments(argv, parse).value;
      && inv.inputName in scenes
      && |scenes[inv.inputName]| > 0
      && var mesh := scenes[inv.inputName][0];
      && MeshInfoOf(mesh).Success?
      && MeshKeys(mesh).Success?
      && var bytes := ConvertSpec(argv, parse, images, scenes).value.bytes;
      && var header := 8 + TextureSize(inv.diffuse, images) + TextureSize(inv.specular, images)
                       + TextureSize(inv.normal, images) + 4;
      && header <= |bytes|
      && ReadsBack(bytes[header..], |MeshInfoOf(mesh).value.vertices|, MeshKeys(mesh).value)
  {
    var inv := HandleArguments(argv, parse).value;
    var mesh := scenes[inv.inputName][0];
    ConvertLayout(argv, parse, images, scenes);
    MeshInfoProperties(mesh);
    MeshReadBack(mesh);
    var bytes := ConvertSpec(argv, parse, images, scenes).value.bytes;
    var header := 8 + TextureSize(inv.diffuse, images) + TextureSize(inv.specular, images)
                  + TextureSize(inv.normal, images) + 4;
    assert bytes[header..] == MeshEncoding(MeshInfoOf(mesh).value).value;
  }

  /** `main`'s fourteen `serialize_float32` calls for one vertex. */
  method SerializeVertex(buf: ByteBuffer, v: Vertex) returns (o: Outcome)
    modifies buf
    ensures o.Pass? <==> VertexEncoding(v).Success?
    ensures o.Pass? ==> buf.data == old(buf.data) + VertexEncoding(v).value
    ensures o.Fail? ==> o.error == VertexEncoding(v).error && old(buf.data) <= buf.data
  {
    var components := Components(v);
    for i := 0 to |components|
      invariant ConcatAll(components[..i], Float32Encoding).Success?
      invariant buf.data == old(buf.data) + ConcatAll(components[..i], Float32Encoding).value
    {
      assert components[..i + 1][..i] == components[..i];
      o := buf.SerializeFloat32(components[i]);
      if o.Fail? {
        ConcatAllFailure(components, Float32Encoding, i + 1);
        return;
      }
    }
    assert components[..|components|] == components;
    o := Pass;
  }

  /** `main`'s vertex count and vertex loop: each vertex's fourteen floats in turn. */
  method SerializeVertices(buf: ByteBuffer, vertices: seq<Vertex>) returns (o: Outcome)
    modifies buf
    ensures o.Pass? <==> CountedEncoding(vertices, VertexEncoding).Success?
    ensures o.Pass? ==> buf.data == old(buf.data) + CountedEncoding(vertices, VertexEncoding).value
    ensures o.Fail? ==> o.error == CountedEncoding(vertices, VertexEncoding).error && old(buf.data) <= buf.data
  {
    o := buf.SerializeUint32(|vertices|);
    if o.Fail? {
      return;
    }
    ghost var start := buf.data;
    for i := 0 to |vertices|
      invariant ConcatAll(vertices[..i], VertexEncoding).Success?
      invariant buf.data == start + ConcatAll(vertices[..i], VertexEncoding).value
    {
      assert vertices[..i + 1][..i] == vertices[..i];
      o := SerializeVertex(buf, vertices[i]);
      if o.Fail? {
        ConcatAllFailure(vertices, VertexEncoding, i + 1);
        return;
      }
    }
    assert vertices[..|vertices|] == vertices;
    o := Pass;
  }

  /** `main`'s element count and element loop: each element as an unsigned 32-bit integer. */
  method SerializeElements(buf: ByteBuffer, elements: seq<nat>) returns (o: Outcome)
    modifies buf
    ensures o.Pass? <==> CountedEncoding(elements, ElementEncoding).Success?
    ensures o.Pass? ==> buf.data == old(buf.data) + CountedEncoding(elements, ElementEncoding).value
    ensures o.Fail? ==> o.error == CountedEncoding(elements, ElementEncoding).error && old(buf.data) <= buf.data
  {
    o := buf.SerializeUint32(|elements|);
    if o.Fail? {
      return;
    }
    ghost var start := buf.data;
    for i := 0 to |elements|
      invariant ConcatAll(elements[..i], ElementEncoding).Success?
      invariant buf.data == start + ConcatAll(elements[..i], ElementEncoding).value
    {
      assert elements[..i + 1][..i] == elements[..i];
      o := buf.SerializeUint32(elements[i]);
      if o.Fail? {
        ConcatAllFailure(elements, ElementEncoding, i + 1);
        return;
      }
    }
    assert elements[..|elements|] == elements;
    o := Pass;
  }

  /** The part of `main` after the shininess: the vertices, then the elements, each list with its count. */
  method SerializeMesh(buf: ByteBuffer, info: MeshInfo) returns (o: Outcome)
    modifies buf
    ensures o.Pass? <==> MeshEncoding(info).Success?
    ensures o.Pass? ==> buf.data == old(buf.data) + MeshEncoding(info).value
    ensures o.Fail? ==> o.error == MeshEncoding(info).error && old(buf.data) <= buf.data
  {
    o := SerializeVertices(buf, info.vertices);
    if o.Fail? {
      return;
    }
    o := SerializeElements(buf, info.elements);
  }

  /**
   * `main`: shape the arguments, start the buffer with the magic, write the
   * three textures and the shininess, index every mesh of the scene, and
   * write the first one.  The result is the file to be written and its name.
   */
  method Convert(argv: seq<string>, parse: string -> Option<Float>,
                 images: map<string, Image>, scenes: map<string, seq<Mesh>>) returns (r: Result<Rmod>)
    ensures r == ConvertSpec(argv, parse, images, scenes)
  {
    var inv: Invocation;
    if |argv| == 6 {
      inv :- HandleInput(argv, parse);
    } else if |argv| == 7 {
      inv :- HandleInputOutput(argv, parse);
    } else {
      return Failure(InvalidInvocation);
    }
    var buf := new ByteBuffer(Magic);
    var o := buf.SerializeImage(inv.diffuse, images);
    if o.Fail? {
      return Failure(o.error);
    }
    o := buf.SerializeImage(inv.specular, images);
    if o.Fail? {
      return Failure(o.error);
    }
    o := buf.SerializeImage(inv.normal, images);
    if o.Fail? {
      return Failure(o.error);
    }
    o := buf.SerializeFloat32(inv.shininess);
    if o.Fail? {
      return Failure(o.error);
    }
    if inv.inputName !in scenes {
      return Failure(CannotLoadScene(inv.inputName));
    }
    var infos := ReadMeshes(scenes[inv.inputName]);
    if infos.Failure? {
      return Failure(infos.error);
    }
    if |infos.value| == 0 {
      return Failure(IndexOutOfRange);
    }
    o := SerializeMesh(buf, infos.value[0]);
    if o.Fail? {
      return Failure(o.error);
    }
    r := Success(Rmod(inv.outputName, buf.data));
  }
}
