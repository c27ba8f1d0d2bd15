/** The `Model` class of Model.h: built from a loaded mesh and a primitive
    mode, it explodes the mesh into vertex records, counts them, sizes and
    fills one vertex buffer, and declares the three vertex attributes.
    The OpenGL objects themselves (the vertex array and buffer handles) are
    not part of the model; what the constructor hands to OpenGL is. */
module GpuModel {
  import opened MeshData
  import opened Explosion
  import opened Layout
  import Loader

  class Model {
    /** The primitive mode `draw` passes on, kept as given. */
    const vertexMode: nat
    /** The number of exploded vertices, as a GLuint. */
    const vertCount: nat
    /** The byte count the vertex buffer is created with. */
    const bufferSize: nat
    /** The records the buffer receives: as many leading records of the
        vertex array as `bufferSize` bytes hold. */
    const bufferData: seq<Vertex>
    /** The enabled attributes and their formats. */
    const attributes: seq<Attribute>

    /** The constructor: explode, count, upload, declare the layout. The
        mesh must name only existing elements. */
    constructor(mesh: Mesh, vertexMode: nat)
      requires IndicesInRange(mesh)
      ensures this.vertexMode == vertexMode
      ensures vertCount == VertCount(3 * |mesh.faces|)
      ensures bufferSize == BufferByteSize(vertCount)
      ensures |Exploded(mesh)| == 3 * |mesh.faces|
      ensures bufferSize / Stride <= |Exploded(mesh)|
      ensures bufferData == Exploded(mesh)[..bufferSize / Stride]
      ensures attributes == Attributes
      ensures 3 * |mesh.faces| * Stride < GLuintModulus ==>
        && vertCount == 3 * |mesh.faces|
        && bufferSize == vertCount * Stride
        && bufferData == Exploded(mesh)
    {
      this.vertexMode := vertexMode;
      var vertices := ExplodeVertices(mesh);
      ExplodedAt(mesh);
      var count := VertCount(|vertices|);
      var size := BufferByteSize(count);
      BufferByteSizeIsStrideTimesCount(count);
      DivBound(size, count);
      vertCount := count;
      bufferSize := size;
      bufferData := vertices[..size / Stride];
      attributes := Attributes;
    }
  }

  /** A byte count that is at most `count` records holds at most `count`
      whole records. */
  lemma DivBound(size: nat, count: nat)
    requires size <= count * Stride
    ensures size / Stride <= count
  {
  }

  /** Loading an empty file gives an empty mesh, which explodes into no
      vertices, so the model built from it has a vertex count of 0 and an
      empty buffer. */
  lemma EmptyFileNoVertices()
    ensures Loader.LoadLines([]) == EmptyMesh
    ensures IndicesInRange(EmptyMesh) && Exploded(EmptyMesh) == []
    ensures VertCount(|Exploded(EmptyMesh)|) == 0 && BufferByteSize(0) == 0
  {
  }
}
