/** The vertex buffer layout the `Model` constructor declares to OpenGL,
    and the unsigned 32-bit arithmetic of its vertex count and buffer size.
    A vertex record is eight 4-byte floats: position (3), normal (3),
    texture coordinate (2), with no padding. */
module Layout {
  import opened MeshData
  import opened Explosion

  /** Bytes in one GL_FLOAT. */
  const FloatSize: nat := 4

  /** Bytes from one vertex record to the next: 4 * (3 + 3 + 2). */
  const Stride: nat := FloatSize * (3 + 3 + 2)

  const PositionIndex: nat := 0
  const NormalIndex: nat := 1
  const TexCoordIndex: nat := 2

  const OffsetPosition: nat := 0
  /** The normal follows the position, whose size is 4 * 3 bytes. */
  const OffsetNormal: nat := OffsetPosition + FloatSize * 3
  const OffsetTexCoord: nat := OffsetNormal + FloatSize * 3

  /** Where each binding starts reading in the buffer. */
  const BufferOffset: nat := 0

  /** One enabled attribute as the constructor configures it: its index,
      its number of float components, its byte offset inside a record, the
      buffer binding it reads from, and that binding's start in the buffer
      and stride. */
  datatype Attribute = Attribute(index: nat, components: nat, offset: nat, binding: nat, bufferOffset: nat, stride: nat)

  /** Position, normal and texture coordinate, in declaration order. */
  const Attributes: seq<Attribute> := [
    Attribute(PositionIndex, 3, OffsetPosition, PositionIndex, BufferOffset, Stride),
    Attribute(NormalIndex, 3, OffsetNormal, NormalIndex, BufferOffset, Stride),
    Attribute(TexCoordIndex, 2, OffsetTexCoord, TexCoordIndex, BufferOffset, Stride)]

  /** The layout is tightly packed and well formed: attribute i has index i
      and reads binding i from the start of the buffer with the record
      stride; the first starts the
      record, each starts where the previous one ends, and the last ends
      the record. */
  lemma LayoutPacked()
    ensures Stride == 32
    ensures forall i :: 0 <= i < |Attributes| ==>
      && Attributes[i].index == i
      && Attributes[i].binding == Attributes[i].index
      && Attributes[i].bufferOffset == 0
      && Attributes[i].stride == Stride
    ensures Attributes[0].offset == 0
    ensures forall i :: 0 < i < |Attributes| ==>
      Attributes[i].offset == Attributes[i - 1].offset + FloatSize * Attributes[i - 1].components
    ensures Attributes[2].offset + FloatSize * Attributes[2].components == Stride
    ensures OffsetPosition == 0 && OffsetNormal == 12 && OffsetTexCoord == 24
  {
  }

  /** The floats of one record, in memory order. */
  function Floats(v: Vertex): seq<Scalar> {
    [v.position.x, v.position.y, v.position.z,
     v.normal.x, v.normal.y, v.normal.z,
     v.texCoord.u, v.texCoord.v]
  }

  /** The components attribute `index` reads from a vertex. */
  function AttributeValue(v: Vertex, index: nat): seq<Scalar>
    requires index < 3
  {
    if index == PositionIndex then [v.position.x, v.position.y, v.position.z]
    else if index == NormalIndex then [v.normal.x, v.normal.y, v.normal.z]
    else [v.texCoord.u, v.texCoord.v]
  }

  /** The buffer as a sequence of floats: the records one after another. */
  function Interleaved(vs: seq<Vertex>): (fs: seq<Scalar>)
    ensures |fs| == 8 * |vs|
  {
    if vs == [] then [] else Interleaved(vs[..|vs| - 1]) + Floats(vs[|vs| - 1])
  }

  /** Float k * 8 + j of the buffer is float j of record k. */
  lemma {:induction false} InterleavedAt(vs: seq<Vertex>, k: nat, j: nat)
    requires k < |vs| && j < 8
    ensures Interleaved(vs)[k * 8 + j] == Floats(vs[k])[j]
    decreases |vs|
  {
    var init := vs[..|vs| - 1];
    if k < |vs| - 1 {
      InterleavedAt(init, k, j);
      assert k * 8 + j < 8 * |init| by {
        assert (k + 1) * 8 <= 8 * |init|;
      }
      assert vs[k] == init[k];
    } else {
      assert 8 * |init| == k * 8;
    }
  }

  /** Reading attribute a of record k as OpenGL does, from byte
      bufferOffset + k * Stride + offset onwards, yields exactly that vertex's position,
      normal or texture coordinate: the declared layout matches the record. */
  lemma AttributeFetch(vs: seq<Vertex>, k: nat, a: nat, j: nat)
    requires k < |vs| && a < |Attributes| && j < Attributes[a].components
    ensures (Attributes[a].bufferOffset + k * Stride + Attributes[a].offset) % FloatSize == 0
    ensures Interleaved(vs)[(Attributes[a].bufferOffset + k * Stride + Attributes[a].offset) / FloatSize + j]
      == AttributeValue(vs[k], Attributes[a].index)[j]
  {
    AttributeAddress(k, a);
    AttributeInInterleaved(vs, k, a, j);
  }

  /** Byte bufferOffset + k * Stride + offset of attribute a is float
      k * 8 + FirstFloat(a). */
  lemma AttributeAddress(k: nat, a: nat)
    requires a < |Attributes|
    ensures (Attributes[a].bufferOffset + k * Stride + Attributes[a].offset) % FloatSize == 0
    ensures (Attributes[a].bufferOffset + k * Stride + Attributes[a].offset) / FloatSize == k * 8 + FirstFloat(a)
  {
    AttributeFacts(a);
    StrideAddress(k, FirstFloat(a));
  }

  lemma AttributeInInterleaved(vs: seq<Vertex>, k: nat, a: nat, j: nat)
    requires k < |vs| && a < |Attributes| && j < Attributes[a].components
    ensures Interleaved(vs)[k * 8 + FirstFloat(a) + j] == AttributeValue(vs[k], Attributes[a].index)[j]
  {
    AttributeFacts(a);
    InterleavedAt(vs, k, FirstFloat(a) + j);
    AttributeInRecord(vs[k], a, j);
  }

  /** The float at which attribute a starts inside a record. */
  function FirstFloat(a: nat): nat {
    if a == 0 then 0 else if a == 1 then 3 else 6
  }

  lemma AttributeFacts(a: nat)
    requires a < |Attributes|
    ensures var attr := Attributes[a];
      && attr.offset == 4 * FirstFloat(a) && attr.index == a && attr.bufferOffset == 0
  {
  }

  lemma AttributeInRecord(v: Vertex, a: nat, j: nat)
    requires a < |Attributes| && j < Attributes[a].components
    ensures j < |AttributeValue(v, a)| && FirstFloat(a) + j < 8
    ensures AttributeValue(v, a)[j] == Floats(v)[FirstFloat(a) + j]
  {
  }

  lemma StrideAddress(k: nat, first: nat)
    ensures (k * Stride + 4 * first) % FloatSize == 0
    ensures (k * Stride + 4 * first) / FloatSize == k * 8 + first
  {
    assert k * 32 + 4 * first == 4 * (k * 8 + first);
  }

  /** One more than the largest GLuint. */
  const GLuintModulus: nat := 0x1_0000_0000

  /** An unsigned 32-bit conversion: reduction modulo 2^32. */
  function ToGLuint(n: nat): (r: nat)
    ensures r < GLuintModulus
    ensures n < GLuintModulus ==> r == n
    ensures (n - r) % GLuintModulus == 0
  {
    n % GLuintModulus
  }

  /** `vertCount` for a vertex array of the given length. */
  function VertCount(vertices: nat): (c: nat)
    ensures c < GLuintModulus
    ensures vertices < GLuintModulus ==> c == vertices
  {
    ToGLuint(vertices)
  }

  /** The byte count passed to the buffer: vertCount * (3 + 3 + 2) * 4,
      each product evaluated in unsigned 32-bit arithmetic. */
  function BufferByteSize(vertCount: nat): nat
    requires vertCount < GLuintModulus
  {
    ToGLuint(ToGLuint(vertCount * (3 + 3 + 2)) * FloatSize)
  }

  /** The byte count is the vertex count times the stride, reduced modulo
      2^32; it is exact below that bound, and it is always a whole number
      of records. */
  lemma BufferByteSizeIsStrideTimesCount(vertCount: nat)
    requires vertCount < GLuintModulus
    ensures BufferByteSize(vertCount) == (vertCount * Stride) % GLuintModulus
    ensures vertCount * Stride < GLuintModulus ==> BufferByteSize(vertCount) == vertCount * Stride
    ensures BufferByteSize(vertCount) % Stride == 0
    ensures BufferByteSize(vertCount) <= vertCount * Stride
  {
    WrappedProduct(vertCount * 8);
    assert vertCount * Stride == 4 * (vertCount * 8);
    WholeRecords(vertCount);
  }

  /** Reducing before the last multiplication gives the same residue as
      reducing after it. */
  lemma WrappedProduct(y: nat)
    ensures ToGLuint(ToGLuint(y) * 4) == (4 * y) % GLuintModulus
  {
    var q, r := y / GLuintModulus, y % GLuintModulus;
    assert y == q * GLuintModulus + r;
    assert 4 * y == (4 * q) * GLuintModulus + 4 * r;
    ModMultiple(4 * r, 4 * q);
  }

  /** A multiple of the stride stays one modulo 2^32, and does not grow. */
  lemma WholeRecords(x: nat)
    ensures (x * Stride) % GLuintModulus == Stride * (x % 0x800_0000)
    ensures (x * Stride) % GLuintModulus <= x * Stride
  {
    var q, r := x / 0x800_0000, x % 0x800_0000;
    assert x == q * 0x800_0000 + r;
    assert x * Stride == q * GLuintModulus + Stride * r;
    ModMultiple(Stride * r, q);
    assert Stride * r < GLuintModulus;
  }

  /** Adding a multiple of the modulus does not change a residue. */
  lemma ModMultiple(r: nat, q: nat)
    ensures (q * GLuintModulus + r) % GLuintModulus == r % GLuintModulus
  {
  }
}
