# rmod encoder

A Dafny model of the asset converter `util/rmod_conevrter.py`. The converter turns a triangulated FBX mesh and up to three texture images into the game's binary `.rmod` model file.

The model covers these parts:

- **Command line.** `process_texture_args`, `handle_input` and `handle_input_output`, and `main`'s dispatch on 6 or 7 arguments. The output name is the input name with its extension replaced by `.rmod`, following POSIX `os.path.splitext`.
- **Corner keys.** `get_vertex_info` picks where each corner attribute is read from: the mapping mode chooses the control-point index or the corner counter, and the reference mode chooses direct access or access through the index array.
- **Indexing.** `get_mesh_info` walks every corner of every triangle, builds the corner's key (position, normal, tangent, bitangent, UV) and deduplicates the keys. The vertex list holds the unique keys in first-appearance order. The element list holds one position in that list per corner.
- **Serialisers.** `serialize_byte`, `serialize_uint32`, `serialize_float32` and `serialize_image` append to one growing byte buffer.
- **File layout.** `main` writes the magic `RUSTGAME`, the diffuse, specular and normal texture blocks, the shininess, the vertex count, 14 floats per vertex, the element count, and the elements. Only the scene's first mesh is written.

Every stop that is modelled, through the converter's `error` helper or an uncaught Python exception, is a `Failure` carrying an `Error` value. The modelled stops are checked in the order the program reaches them. The stops that are not modelled are listed under "## Left out".

The project is split into these modules:

| module | file | contents |
|---|---|---|
| `Common` | `common.dfy` | errors, `Result`, `Outcome`, `MapAll` |
| `Bytes` | `bytes.dfy` | big-endian 32-bit fields, round trips, the uint32 guard finding |
| `Serializer` | `serializer.dfy` | the encodings as functions; the `ByteBuffer` class whose methods are the serialisers |
| `Layers` | `layers.dfy` | `get_vertex_info` and `fbx_to_tuple` |
| `Indexing` | `indexing.dfy` | deduplication (`Dedup`), the element list (`Indices`), and the `Indexed` invariant that ties `vertex_map`, `vertex_list` and `element_list` to the keys seen so far |
| `Triangles` | `triangles.dfy` | the polygon and corner loops of `get_mesh_info`, over any key function |
| `Meshes` | `meshes.dfy` | the FBX mesh, the corner key, `get_mesh_info`, and the loop that reads every mesh |
| `Arguments` | `arguments.dfy` | the command line |
| `Converter` | `converter.dfy` | `main` and the file layout |

Each imperative function of the source is a method. Each method is proved equal to a specification function, and that function's properties are proved as lemmas:

- The serialisers are methods of a `ByteBuffer` class with a `data: seq<byte>` field.
- `GetMeshInfo`, `IndexCorners`, `IndexTriangle` and `AddCorner` carry `vertex_map`, `vertex_list` and `element_list` through the loops.
- `ProcessTextureArgs`, `HandleInput`, `HandleInputOutput`, `ReadMeshes` and `Convert` are loops or sequences of steps.

Functions that take parameters instead of doing I/O:

- The FBX scene files are `scenes: map<string, seq<Mesh>>`, the meshes of each file that loads.
- The images Pillow can open are `images: map<string, Image>`.
- `float(argv[4])` is `parse: string -> Option<Float>`.

## Model

| member | source | states |
|---|---|---|
| Bytes.Uint32RoundTrip | util/rmod_conevrter.py:189 | the four bytes `struct.pack('>I', num)` writes read back as `num`, for every `0 <= num < 2^32` |
| Bytes.Uint32DecodeRoundTrip | util/rmod_conevrter.py:189 | every four bytes are the packing of exactly the value they are read as |
| Bytes.BigEndianRoundTrip | util/rmod_conevrter.py:184-190 | a number written in `width` most-significant-first digits reads back as itself whenever it fits |
| Bytes.DecodeBigEndianRoundTrip | util/rmod_conevrter.py:184-190 | reading a digit sequence and writing it back in as many digits gives the same sequence |
| Bytes.DecodeBigEndianBound | util/rmod_conevrter.py:184-190 | `k` bytes read as a number are below `256^k` |
| Bytes.GuardAdmitsUnencodable | util/rmod_conevrter.py:187 | the guard as written admits `2^32`, which is out of range and is the reading of no four bytes |
| Bytes.Uint32InRangeIsEncodable | util/rmod_conevrter.py:187-189 | the corrected guard admits a value exactly when some four bytes read as it |
| Serializer.ByteBuffer.SerializeByte | util/rmod_conevrter.py:168-171 | succeeds exactly for `0..255` and then appends that one byte; otherwise it stops with the value and the buffer is unchanged |
| Serializer.ByteBuffer.SerializeUint32 | util/rmod_conevrter.py:186-190 | succeeds exactly for `0 <= num < 2^32`; appends the four big-endian bytes, which read back as `num`; otherwise it stops with the value, buffer unchanged |
| Serializer.ByteBuffer.SerializeFloat32 | util/rmod_conevrter.py:176-181 | succeeds exactly when `abs(num) <= 2^31`; appends the packed four bytes; otherwise it stops, buffer unchanged |
| Serializer.ByteBuffer.SerializeImage | util/rmod_conevrter.py:194-211 | succeeds exactly when the texture's block can be written; the buffer grows by exactly that block; otherwise it stops with the block's error |
| Serializer.ByteBuffer.SerializePixels | util/rmod_conevrter.py:207-211 | appends R, G, B, A of every pixel in order; the first pixel value outside a byte stops it with that error |
| Serializer.NoTextureIsZeroBlock | util/rmod_conevrter.py:195-198 | no texture (`'_'`) writes eight zero bytes: width 0 and height 0 |
| Serializer.ImageBlockSucceeds | util/rmod_conevrter.py:204-211 | a texture block can be written exactly when width and height fit in 32 bits and every pixel value fits in a byte |
| Serializer.ImageBlockLength | util/rmod_conevrter.py:204-211 | a written texture block is 8 bytes of header plus 4 per pixel |
| Serializer.ImageBlockLayout | util/rmod_conevrter.py:204-211 | width and height read back from offsets 0 and 4; pixel `k` is at offset `8 + 4k` as its R, G, B, A |
| Serializer.ImageBlockSize | util/rmod_conevrter.py:204-211 | for a decoded image, the block is `8 + 4 * width * height` bytes |
| Serializer.TextureSizeIsLength | util/rmod_conevrter.py:194-211 | a written texture block is 8 bytes for no texture, and `8 + 4 * pixels` for an image |
| Serializer.ConcatAllSucceeds | util/rmod_conevrter.py:207-211 | a loop of serialiser calls gets through exactly when each item can be written |
| Serializer.ConcatAllFailure | util/rmod_conevrter.py:207-211 | the first item that cannot be written decides the error that stops the loop |
| Serializer.ConcatAllFixed | util/rmod_conevrter.py:229-246 | when every item takes `w` bytes, item `k` sits at offset `w * k` of the loop's output |
| Layers.ToTuple | util/rmod_conevrter.py:78-82 | succeeds exactly when the item has at least `size` components; the result holds the first `size` of them |
| Layers.VertexInfo | util/rmod_conevrter.py:85-106 | a successful lookup yields exactly `size` components |
| Layers.VertexInfoTable | util/rmod_conevrter.py:85-106 | control-point mapping reads at the control-point index and polygon-vertex mapping at the corner counter; direct reference reads the direct array there, index-to-direct goes through the index array; any other mapping or reference mode is its own error |
| Indexing.Position | util/rmod_conevrter.py:160 | the position of the first occurrence: the item is there and nowhere before it |
| Indexing.DedupFacts | util/rmod_conevrter.py:156-160 | the vertex list holds each key seen exactly once, and nothing else |
| Indexing.DedupFirstAppearance | util/rmod_conevrter.py:156-159 | the vertex list is in the order the keys first appear |
| Indexing.DedupPrefix | util/rmod_conevrter.py:156-159 | the vertex list only grows: that of a prefix of the keys is a prefix of that of all keys |
| Indexing.IndicesDecode | util/rmod_conevrter.py:156-161 | element `k` is a position in the vertex list, and the vertex there is key `k` |
| Indexing.IndicesBounded | util/rmod_conevrter.py:161 | every element is below the number of vertices |
| Indexing.PositionMapFacts | util/rmod_conevrter.py:160 | `vertex_map` has one entry per vertex, its keys are exactly the vertices, and each maps to its own position |
| Indexing.IndexedEmpty | util/rmod_conevrter.py:136-138 | the empty dictionary and lists index no keys |
| Indexing.IndexedStep | util/rmod_conevrter.py:156-161 | one corner keeps the invariant: a key is in `vertex_map` exactly when it was seen before; a new key is appended and mapped to `len(vertex_map)`; every key's element is its position |
| Indexing.IndexedOld | util/rmod_conevrter.py:161 | a key seen before adds its old position to the element list and changes nothing else |
| Indexing.IndexedNew | util/rmod_conevrter.py:156-161 | a new key is appended to the vertex list, mapped to the old size of the dictionary, and that position is appended to the element list |
| Triangles.AddCorner | util/rmod_conevrter.py:156-161 | the dictionary update of one corner keeps the invariant for the keys seen plus this one; a seen key leaves dictionary and vertex list unchanged; a new key is appended |
| Triangles.IndexTriangle | util/rmod_conevrter.py:148-162 | the corner loop of one triangle succeeds exactly when all three corner keys can be built, fails with the first corner's error otherwise, and keeps the invariant for the keys it adds |
| Triangles.IndexCorners | util/rmod_conevrter.py:144-165 | the polygon loop returns exactly the indexing of all corner keys; three elements per triangle, each decoding to its corner's key; no vertex twice |
| Triangles.NonTriangleRefused | util/rmod_conevrter.py:146-147 | a polygon with other than three corners, reached with all earlier corners built, stops the conversion as not triangulated |
| Triangles.TriangleFails | util/rmod_conevrter.py:148-155 | a corner whose key cannot be built stops the whole mesh with that corner's error |
| Triangles.KeysSatisfy | util/rmod_conevrter.py:149-155 | every corner key has every property that each key the key function builds has |
| Triangles.TableProperties | util/rmod_conevrter.py:133-165 | `(element_list, vertex_list)`: one element per corner, each decoding to its key; no duplicate vertices; every vertex a key; vertices in first-appearance order |
| Meshes.CornerKey | util/rmod_conevrter.py:149-155 | a corner key that can be built has 3 position, normal, tangent and bitangent components and 2 UV components |
| Meshes.MeshInfoProperties | util/rmod_conevrter.py:133-165 | `get_mesh_info`'s result: three elements per triangle, each the position of its corner's key in the vertex list; vertices of the stored shape, in first-appearance order, none twice (keys compared by their packed float bytes, see "## Left out") |
| Meshes.GetMeshInfo | util/rmod_conevrter.py:133-165 | returns exactly the indexing of the mesh's corner keys, or the first error; all vertices are of the stored shape |
| Meshes.ReadMeshes | util/rmod_conevrter.py:117-120 | one result per mesh, in order, each that mesh's `get_mesh_info`; the first mesh that fails stops it |
| Arguments.ProcessTextureArgs | util/rmod_conevrter.py:56-61 | returns exactly the three texture positions with `'_'` as none, and the parsed shininess, or the parse error |
| Arguments.TextureArgsMeaning | util/rmod_conevrter.py:56-61 | succeeds exactly when `argv[4]` parses; texture `k` is none exactly for `'_'` and otherwise the argument itself |
| Arguments.LastIndex | util/rmod_conevrter.py:67 | `rfind`: -1 or a position of the character, with none after it |
| Arguments.SplitExtParts | util/rmod_conevrter.py:67 | root plus extension is the path; an extension is one dot followed by no dot or slash; a name of dots only keeps them |
| Arguments.SplitExtNoDot | util/rmod_conevrter.py:67 | a path without a dot has no extension |
| Arguments.SplitExtAppended | util/rmod_conevrter.py:67 | a name followed by an extension splits back into that name and extension |
| Arguments.SplitExt | util/rmod_conevrter.py:67 | `os.path.splitext`: root and extension make up the path, and the extension is empty or starts with a dot; `SplitExtParts` and `SplitExtAppended` state the rest |
| Arguments.HandleInput | util/rmod_conevrter.py:64-69 | returns exactly the six-argument invocation, or the shininess parse error; `HandleArgumentsMeaning` and `HandleInputReplacesExtension` state what that invocation holds |
| Arguments.HandleInputOutput | util/rmod_conevrter.py:72-75 | returns exactly the seven-argument invocation, or the shininess parse error; `HandleArgumentsMeaning` states what that invocation holds |
| Arguments.HandleArguments | util/rmod_conevrter.py:215-219 | an argument count other than 6 or 7 is the invocation error; a successful invocation's input is `argv[5]`; `HandleArgumentsMeaning` states the rest |
| Arguments.HandleArgumentsMeaning | util/rmod_conevrter.py:64-75 | accepted exactly for 6 or 7 arguments with a parsable shininess; input `argv[5]`; output `argv[6]` if given, else the input without its extension plus `.rmod` |
| Arguments.HandleInputReplacesExtension | util/rmod_conevrter.py:64-69 | given `model.fbx`-style input, six arguments produce output `model.rmod` |
| Converter.ComponentsAreIndexed | util/rmod_conevrter.py:229-243 | the floats written per vertex are exactly `pos[0..2]`, `normal[0..2]`, `tangent[0..2]`, `bitangent[0..2]`, `tcoord[0..1]` in that order |
| Converter.VertexEncodingSucceeds | util/rmod_conevrter.py:230-243 | a vertex can be written exactly when none of its floats exceeds the bound |
| Converter.VertexEncodingLayout | util/rmod_conevrter.py:230-243 | a written vertex is 56 bytes, float `k` packed at offset `4k` |
| Converter.VerticesLength | util/rmod_conevrter.py:229-243 | the vertex loop writes 56 bytes per vertex, vertex `k` at offset `56k` |
| Converter.ElementsLayout | util/rmod_conevrter.py:245-246 | the element loop writes 4 bytes per element, which read back as the element |
| Converter.MeshEncodingLayout | util/rmod_conevrter.py:228-246 | mesh part: vertex count at 0, vertex `k` at `4 + 56k`, element count after the vertices, element `k` four bytes at a time after it, all reading back as written |
| Converter.MeshReadBack | util/rmod_conevrter.py:133-165 | reading a mesh's file part back: element `k` is below the vertex count, and the vertex block it names holds corner `k`'s attributes |
| Converter.TableReadBack | util/rmod_conevrter.py:228-246 | the mesh part of any table that indexes a key list reads back as that key list |
| Converter.SerializeVertex | util/rmod_conevrter.py:230-243 | the fourteen float writes of one vertex append exactly that vertex's encoding, or stop with the first float's error |
| Converter.SerializeVertices | util/rmod_conevrter.py:228-243 | vertex count and vertex loop append exactly the counted vertex list, or stop with the first error |
| Converter.SerializeElements | util/rmod_conevrter.py:244-246 | element count and element loop append exactly the counted element list, or stop with the first error |
| Converter.SerializeMesh | util/rmod_conevrter.py:228-246 | the vertex list, then the element list: appends exactly the mesh part, or stops with its error |
| Converter.Convert | util/rmod_conevrter.py:214-248 | `main` produces exactly the specified file and name, or the error it first stops with, checking in the program's order |
| Converter.ConvertStartsWithMagic | util/rmod_conevrter.py:221-222 | every written file starts with `RUSTGAME` |
| Converter.ConvertNeedsSixOrSeven | util/rmod_conevrter.py:215-217 | only 6 or 7 command-line arguments convert; any other count is the invocation error |
| Converter.ConvertLayout | util/rmod_conevrter.py:222-246 | the file is the magic, three texture blocks, the shininess, and the first mesh's part; its length is `8 + the texture block sizes + 4 + 8 + 56 * vertices + 4 * elements` |
| Converter.ConvertReadsBack | util/rmod_conevrter.py:222-246 | after the header, the file holds the first mesh's vertex count and elements, and element `k` names the vertex block holding corner `k`'s attributes |

## Left out

- `src/main.rs` (the game) and `utils/convert_collada.py` are not part of this model.
- Loading FBX files through the Autodesk SDK is a parameter: `LoadScene` and the scene-graph traversal of `read_input_file` and `get_child_info` (lines 109-130) are replaced by the list of meshes of each loadable file, in traversal order.
- `get_child_info` line 129 recurses through `root_node.GetChild(i)`. `root_node` is not defined in that function, so the statement raises `NameError`. The traversal is not modelled, so this is not modelled either.
- The "FBX file is empty" check on the root node is not modelled, because the scene graph is not.
- `Image.open` and `getdata()` are a parameter: the map of images that open, each with its size and RGBA pixels. Pixels that are not RGBA tuples, and Pillow's own errors, are not modelled.
- Floating point is not modelled. `round(x, 5)` in `fbx_to_tuple` is left out. A float is modelled as its four `struct.pack('>f', ...)` bytes plus whether `abs(num) > 2^31`. `float()` parsing is a parameter.
- Logging (`output`), the timestamps and the final file write are left out. The model returns the bytes and the output name that would be written.
- `sys.exit(1)` after an error message, and uncaught `IndexError` and `ValueError`, are a `Failure` carrying the matching `Error`.
- The one `struct.error` the source can reach, `struct.pack('>I', 2**32)`, is modelled as the converter's own `Uint32OutOfRange(2^32)`. The corrected guard stops there, as the Findings row explains.
- Layers.At assumes that the SDK's `GetAt` (lines 90-101) fails outside its array. The source does not say what that call does there; the model gives `IndexOutOfRange`.
- `os.path.splitext` is modelled for POSIX paths only; Windows path separators are not.
- The mesh name and the "Processing mesh" message (lines 134-135) are logging only and are left out.
- Serializer.ByteBuffer.SerializeImage: on failure, the contract only says the buffer was extended, because the converter exits at that point and the partial buffer is never used.
- Serializer.ByteBuffer.SerializePixels: on failure, the contract only says the buffer was extended, for the same reason.
- Converter.SerializeVertex: on failure, the contract only says the buffer was extended, for the same reason.
- Converter.SerializeVertices: on failure, the contract only says the buffer was extended, for the same reason.
- Converter.SerializeElements: on failure, the contract only says the buffer was extended, for the same reason.
- Converter.SerializeMesh: on failure, the contract only says the buffer was extended, for the same reason.
- Meshes.GetMeshInfo: two corner keys are the same dictionary key exactly when they are equal as Dafny values. Each float is compared by its packed `>f` bytes and its bound flag, not by Python's float `==` that `key not in vertex_map` (line 156) uses. So:
  - `0.0` and `-0.0` pack differently, so corners differing only in that sign are two vertices in the model and one in the source. `round` turns small negatives into `-0.0`, so this happens with ordinary data.
  - Doubles that round to the same single, such as `16777216.0` and `16777217.0`, are one vertex in the model and two in the source.
  - A NaN component never equals anything in the source, so each such corner gets its own vertex there; the model merges NaNs with equal bytes.
  - The vertex count, the element list and the file length then differ from the source's for such meshes.
- Meshes.MeshInfoProperties: "no vertex twice", "every element decodes to its corner's key" and first-appearance order hold under the same byte-level key equality, not under Python's float `==`.
- Triangles.IndexTriangle and Triangles.AddCorner are pieces of `get_mesh_info`'s nested loops, taken out as their own methods: the corner loop of one triangle and the dictionary update of one corner. The statements are those of the source.
- Converter.SerializeVertex models the fourteen `serialize_float32` statements of lines 230-243 as a loop over the vertex's fourteen components. The writes and their order are the same.

## Findings

| source | as written | input that shows it | evidently intended | confidence | as-written member | corrected member |
|---|---|---|---|---|---|---|
| util/rmod_conevrter.py:187 | `serialize_uint32` rejects `num > pow(2, 32)`, so `2^32` passes its own check and reaches `struct.pack('>I', 2**32)`, which raises `struct.error` instead of the converter's message | `num = 2^32` (4294967296) | reject `num >= 2^32`, the first value with no four-byte encoding | not executed | Bytes.GuardAdmitsUnencodable | Bytes.Uint32InRangeIsEncodable |
