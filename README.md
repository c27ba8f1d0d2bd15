# Model.h: OBJ loading and vertex explosion

A model of the two halves of `Model.h`:

- `loadMesh` reads a Wavefront OBJ file line by line. Each line is
  dispatched on its first word.
  - `v`, `vn` and `vt` lines append one position, normal or texture
    coordinate.
  - An `f` line appends a zero-initialised `Face` and then lets `sscanf`
    with the format `"f %u/%u/%u %u/%u/%u %u/%u/%u"` store up to nine
    indices into it, in the order position, texture, normal of each corner.
  - Every other line is skipped.
- The `Model` constructor explodes the indexed mesh. Every corner of every
  face becomes one vertex record (position, normal, texture coordinate),
  looked up through its 1-based indices. It then:
  - counts the records as a 32-bit `GLuint`;
  - sizes a buffer as `vertCount * (3 + 3 + 2) * 4` bytes, again in 32-bit
    arithmetic;
  - declares three float attributes (indices 0, 1, 2; offsets 0, 12, 24;
    stride 32; binding equal to index).

The modules follow the structure of the program:

| module | file | content |
|---|---|---|
| `Lex` | lex.dfy | C whitespace, `>>` into a string (one word), the digits `%u` reads, decimal numerals |
| `Scanf` | scanf.dfy | `sscanf` for formats of blanks, literal characters and `%u`; the face format; rendering a well-formed line from values |
| `MeshData` | mesh.dfy | `Face`, `Mesh`, and the nine index slots a face scan writes through |
| `Loader` | loader.dfy | `loadMesh`: line classification, the loop as a method, the arrays of the result as reference selections |
| `Explosion` | explosion.dfy | `Vertex`, the index precondition, the nested loop as a method, its specification function |
| `Layout` | layout.dfy | the attribute layout, the interleaved buffer image, `GLuint` arithmetic |
| `GpuModel` | gpu_model.dfy | the `Model` class and its constructor |
| `Scenario` | scenario.dfy | a one-triangle file taken from its text to its exploded vertices |

Inputs the program gets from outside are parameters:

- the lines of the file, already split, in place of the file name and `getline`;
- the primitive mode `vertexMode`.

Coordinates are kept as the text of the word they were read from. Neither
the loader nor the explosion computes on them. So for a line whose
coordinate words are each exactly one number, every property stated here
holds whatever numbers those words denote. Lines whose words are not single
numbers are listed under "## Left out".

Two consequences of the source show up as lemmas rather than as
preconditions of the loader:

- An `f` line whose scan fails at the first directive leaves an all-zero
  face. An indented face line is one example (`Loader.IndentedFaceLine`).
- A mesh holding such a face can never satisfy the constructor's index
  precondition (`Explosion.ZeroFaceOutOfRange`). The source subtracts 1
  from an unsigned index without checking it, so the model demands, as the
  source silently does, that every index names an existing element.

## Model

| member | source | states |
|---|---|---|
| Lex.ReadWordSpec | Model.h:128-129 | `>>` into a string skips leading whitespace and returns a maximal non-space word followed by the unread rest. The word is empty exactly when the line is blank. |
| Lex.ReadWordOf | Model.h:129-133 | A word followed by whitespace or the end of the line is extracted whole, with or without a blank before it. |
| Lex.ReadUnsignedSpec | Model.h:153-158 | A `%u` conversion succeeds exactly when a digit follows the skipped whitespace. It consumes the longest digit run there, returns the value of that run, and leaves the rest of the input, which does not start with a digit. |
| Lex.ReadDecimal | Model.h:153-158 | `%u` reads back the value of a decimal numeral followed by a non-digit: the round trip between writing an index and scanning it. |
| Lex.Decimal | Model.h:153-158 | The numeral of n is a non-empty run of digits whose value is n. |
| Scanf.Scan | Model.h:153-158 | A scan stores at most as many values as its format has conversions. |
| Scanf.FaceFormatText | Model.h:154 | The face format string parses to the tag `f` followed by three corners of blank, `%u`, `/`, `%u`, `/`, `%u`, with nine conversions in all. |
| Scanf.ScanRender | Model.h:153-158 | For a format whose adjacent directives cannot run into each other, scanning the rendered text stores exactly the values that were written, in order. |
| Scanf.FaceScanNeedsLeadingTag | Model.h:153-154 | A line that does not start with the character `f` stores nothing. |
| MeshData.StoreScanned | Model.h:150-158 | After a scan, the first slots of the face hold the converted values in target order and every later slot is unchanged. |
| MeshData.SetSlot | Model.h:155-157 | Storing through one target pointer changes that slot and no other. |
| MeshData.CompleteScan | Model.h:150-158 | Nine converted values a1..a9 give position indices (a1, a4, a7), texture indices (a2, a5, a8) and normal indices (a3, a6, a9). |
| MeshData.FaceBySlots | Model.h:13-17 | A face is determined by its nine slots. |
| Loader.LoadLineByTag | Model.h:125-160 | Loading one more line changes the mesh as follows. A `v`, `vn` or `vt` line appends to its own array the vector read after the tag. An `f` line appends to the faces the zero face that the whole line was scanned into. A line with any other tag leaves the mesh equal. |
| Loader.Classified | Model.h:125-160 | There is one entry per line. |
| Loader.LoadMesh | Model.h:119-163 | The loop returns the mesh of the lines. Each of its four arrays is exactly the entries of its kind, in line order. |
| Loader.LoadLine | Model.h:126-159 | One iteration of the loop appends what the line's entry says to the mesh built so far. |
| Loader.LoadSelects | Model.h:119-163 | Loading a run of entries gives the mesh whose arrays are the selections of positions, normals, texture coordinates and faces. |
| Loader.StepAppendsOne | Model.h:131-159 | A recognised line appends exactly one element to exactly one array, and any other line appends nothing; earlier elements stay in place. |
| Loader.LoadAppend | Model.h:125-160 | Loading more lines only appends: what the first lines loaded is a prefix of each array. |
| Loader.IgnoredLineSkipped | Model.h:131-160 | Removing a line with an unrecognised tag does not change the loaded mesh. |
| Loader.FaceLineSlots | Model.h:149-158 | An `f` line appends a face whose slots hold the scanned values up to the first mismatch and 0 after it. |
| Loader.IndentedFaceLine | Model.h:149-158 | An indented face line is dispatched as a face but stores no index, so it appends the all-zero face. |
| Loader.WellFormedFaceLine | Model.h:149-158 | The well-formed line `f a/b/c d/e/g h/j/k` appends the face with position indices (a, d, h), texture indices (b, e, j) and normal indices (c, g, k). |
| Loader.FaceLineTag | Model.h:128-129 | The first word of a well-formed face line is `f`. |
| Loader.PositionLine | Model.h:131-136 | `v x y z` with three words appends the position (x, y, z). |
| Loader.NormalLine | Model.h:137-142 | `vn x y z` appends the normal (x, y, z). |
| Loader.TexCoordLine | Model.h:143-148 | `vt u v` appends the texture coordinate (u, v). |
| Loader.FaceText | Model.h:154 | A well-formed face line is the tag `f` followed by its three corners `" a/b/c"`. |
| Explosion.ExplodeVertices | Model.h:42-51 | The nested loop produces the exploded vertex array: 3 vertices per face, in face order. Within a face, the inner loop pushes corners 0, 1 and 2 in that order; its invariant says the array is the earlier faces' vertices followed by the corners pushed so far. |
| Explosion.ExplodedAt | Model.h:42-51 | Count law: F faces give 3F vertices. Per-position law: vertex 3j + c holds the position, normal and texture coordinate named by corner c of face j, each 1-based index lowered by one. |
| Explosion.NoFacesNoVertices | Model.h:42-51 | A mesh without faces explodes into no vertices. |
| Explosion.ZeroFaceOutOfRange | Model.h:46-48 | A mesh that holds an all-zero face violates the index precondition. |
| Layout.LayoutPacked | Model.h:54-82 | Attribute i has index i and reads binding i from buffer offset 0 with stride 32 = 4 * (3 + 3 + 2). The attribute offsets are 0, 12 and 24. Each attribute starts where the previous one ends and the last ends the record. |
| Layout.Interleaved | Model.h:31-35 | The memory image of n vertex records is 8n floats. |
| Layout.InterleavedAt | Model.h:31-35 | Float 8k + j of the buffer is float j of record k. |
| Layout.AttributeFetch | Model.h:59-82 | Fetching attribute a of vertex k from byte bufferOffset + k * stride + offset (bufferOffset is 0) reads a float-aligned address and yields exactly that vertex's position, normal or texture coordinate. |
| Layout.ToGLuint | Model.h:52 | The conversion to `GLuint` is reduction modulo 2^32: below 2^32, identity. |
| Layout.VertCount | Model.h:52 | `vertCount` is below 2^32, and equal to the number of vertices when that number fits. |
| Layout.BufferByteSizeIsStrideTimesCount | Model.h:59 | The byte count is vertCount * 32 modulo 2^32. It is exact when the product fits, it is always a multiple of the stride, and it never exceeds the product. |
| GpuModel.Model.constructor | Model.h:38-83 | The constructor keeps the mode and sets vertCount to the 32-bit count of 3F vertices. It sizes the buffer by the byte count, fills it with the leading exploded records that count covers, and declares the three attributes. When 96F is below 2^32, the count is 3F and the buffer holds every exploded vertex. |
| GpuModel.EmptyFileNoVertices | Model.h:38-163 | An empty file loads to an empty mesh, which gives a vertex count of 0 and a buffer of 0 bytes. |
| Scenario.TriangleLoads | Model.h:119-163 | A one-triangle file loads to three positions, one normal, three texture coordinates and the face ((1, 2, 3), (1, 1, 1), (1, 2, 3)). |
| Scenario.TriangleExplodes | Model.h:42-51 | That triangle explodes into three vertices that take the positions and texture coordinates in order and share the single normal. |

## Left out

- OpenGL: buffer and vertex-array creation, attribute enabling and the handles `vao` and `vbo` are not modelled as calls. What the constructor passes to them (byte count, data, layout) is. The GL error for a buffer of size 0 is not modelled.
- `draw`, the destructor and the deleted copy operations have no effect on the loaded or exploded data. They are left out.
- `createBox` is a constant vertex list that nothing in the core uses.
- Opening the file and `getline`: the loader takes the list of lines. End-of-line handling (a trailing carriage return stays in the line and counts as whitespace) follows from that.
- Loader.ReadVec3: floating-point parsing is left out; a coordinate is kept as its word. A missing coordinate becomes the empty word, where C++ stores 0 or leaves the float unset.
- Loader.ReadVec2: the same as `ReadVec3`, for two coordinates.
- Loader.ReadVec3: coordinates are split at whitespace. `>>` into a float stops at the end of the number, so words that are not exactly one number are read differently. `v 1-2 3 4` gives x = 1, y = -2, z = 3 in C++ but the words `1-2`, `3`, `4` in the model. `v 1abc 2 3` makes the C++ stream fail after x, so y becomes 0 and z is left unset, while the model keeps `2` and `3`. The same holds for `Loader.ReadVec2`.
- Lex.ReadUnsigned: `%u` is modelled as optional whitespace followed by decimal digits. The optional sign that `sscanf` accepts, and the wrap-around of values beyond 32 bits, are left out. Face indices are unbounded naturals.
- Scanf.ParseFormat: only the directives the face format uses are recognised (whitespace, ordinary characters, `%u`).
- Locales other than "C", and characters outside ASCII whitespace, are left out.
- GpuModel.Model.constructor: the buffer contents are stated as whole records. When the 32-bit byte count wraps, OpenGL copies that many bytes. The model keeps the whole records those bytes cover, and the byte count is always a multiple of the record size.
