/** Vertex explosion, the first half of the `Model` constructor in Model.h:
    every corner of every face becomes one self-contained vertex record
    holding the position, normal and texture coordinate its indices name,
    so that the result can be drawn without an index buffer. */
module Explosion {
  import opened MeshData

  /** The interleaved record of the vertex buffer. */
  datatype Vertex = Vertex(position: Vec3, normal: Vec3, texCoord: Vec2)

  /** A 1-based index names an element of an array of length n. */
  predicate InRange(index: nat, n: nat) {
    1 <= index <= n
  }

  /** What the constructor demands of its mesh: every index of every corner
      names an element of its array. An index of 0 would wrap around when 1
      is subtracted from it as an unsigned number, and an index past the end
      would read outside the array. */
  predicate IndicesInRange(m: Mesh) {
    forall j, c :: 0 <= j < |m.faces| && 0 <= c < 3 ==>
      && InRange(m.faces[j].vi[c], |m.positions|)
      && InRange(m.faces[j].ni[c], |m.normals|)
      && InRange(m.faces[j].ti[c], |m.texCoords|)
  }

  /** The vertex of corner c of face j. */
  function CornerVertex(m: Mesh, j: nat, c: nat): Vertex
    requires IndicesInRange(m)
    requires j < |m.faces| && c < 3
  {
    var f := m.faces[j];
    Vertex(m.positions[f.vi[c] - 1], m.normals[f.ni[c] - 1], m.texCoords[f.ti[c] - 1])
  }

  /** The vertices of the first n faces, face by face and corner by corner. */
  function ExplodedFaces(m: Mesh, n: nat): seq<Vertex>
    requires IndicesInRange(m)
    requires n <= |m.faces|
  {
    if n == 0 then []
    else ExplodedFaces(m, n - 1) + [CornerVertex(m, n - 1, 0), CornerVertex(m, n - 1, 1), CornerVertex(m, n - 1, 2)]
  }

  /** The vertices of the first v corners of face j. */
  function FaceCorners(m: Mesh, j: nat, v: nat): seq<Vertex>
    requires IndicesInRange(m)
    requires j < |m.faces| && v <= 3
  {
    if v == 0 then [] else FaceCorners(m, j, v - 1) + [CornerVertex(m, j, v - 1)]
  }

  /** All three corners of a face, in order. */
  lemma AllFaceCorners(m: Mesh, j: nat)
    requires IndicesInRange(m)
    requires j < |m.faces|
    ensures FaceCorners(m, j, 3) == [CornerVertex(m, j, 0), CornerVertex(m, j, 1), CornerVertex(m, j, 2)]
  {
    assert FaceCorners(m, j, 1) == [CornerVertex(m, j, 0)];
    assert FaceCorners(m, j, 2) == [CornerVertex(m, j, 0), CornerVertex(m, j, 1)];
  }

  /** The vertex array the constructor builds from its mesh. */
  function Exploded(m: Mesh): seq<Vertex>
    requires IndicesInRange(m)
  {
    ExplodedFaces(m, |m.faces|)
  }

  /** The first n faces give three vertices each, and vertex k is corner
      k % 3 of face k / 3. */
  lemma {:induction false} ExplodedFacesAt(m: Mesh, n: nat)
    requires IndicesInRange(m)
    requires n <= |m.faces|
    ensures |ExplodedFaces(m, n)| == 3 * n
    ensures forall k :: 0 <= k < 3 * n ==> ExplodedFaces(m, n)[k] == CornerVertex(m, k / 3, k % 3)
  {
    if n > 0 {
      ExplodedFacesAt(m, n - 1);
      var vs := ExplodedFaces(m, n);
      forall k | 0 <= k < 3 * n
        ensures vs[k] == CornerVertex(m, k / 3, k % 3)
      {
        if k >= 3 * (n - 1) {
          var c := k - 3 * (n - 1);
          assert k / 3 == n - 1 && k % 3 == c;
        }
      }
    }
  }

  /** The count law and the per-position law: a mesh of F faces explodes
      into 3F vertices, and output position 3j + c is corner c of face j,
      so faces keep their order and corners keep theirs within a face. */
  lemma ExplodedAt(m: Mesh)
    requires IndicesInRange(m)
    ensures |Exploded(m)| == 3 * |m.faces|
    ensures forall j, c :: 0 <= j < |m.faces| && 0 <= c < 3 ==>
      Exploded(m)[3 * j + c] == CornerVertex(m, j, c)
  {
    ExplodedFacesAt(m, |m.faces|);
    forall j, c | 0 <= j < |m.faces| && 0 <= c < 3
      ensures Exploded(m)[3 * j + c] == CornerVertex(m, j, c)
    {
      assert (3 * j + c) / 3 == j && (3 * j + c) % 3 == c;
    }
  }

  /** A mesh with no faces explodes into no vertices. */
  lemma NoFacesNoVertices(m: Mesh)
    requires m.faces == []
    ensures IndicesInRange(m) && Exploded(m) == []
  {
  }

  /** A face left all zero (an `f` line whose scan failed at once) can never
      be exploded: its indices name no element. */
  lemma ZeroFaceOutOfRange(m: Mesh)
    requires ZeroFace in m.faces
    ensures !IndicesInRange(m)
  {
    var j :| 0 <= j < |m.faces| && m.faces[j] == ZeroFace;
    assert !InRange(m.faces[j].vi[0], |m.positions|);
  }

  /** The nested loop of the constructor: for each face, for each of its
      three corners, push the corner's vertex. */
  method ExplodeVertices(m: Mesh) returns (vertices: seq<Vertex>)
    requires IndicesInRange(m)
    ensures vertices == Exploded(m)
    ensures |vertices| == 3 * |m.faces|
  {
    vertices := [];
    var i := 0;
    while i < |m.faces|
      invariant i <= |m.faces|
      invariant vertices == ExplodedFaces(m, i)
    {
      var v := 0;
      while v < 3
        invariant v <= 3
        invariant vertices == ExplodedFaces(m, i) + FaceCorners(m, i, v)
      {
        vertices := vertices + [CornerVertex(m, i, v)];
        v := v + 1;
      }
      AllFaceCorners(m, i);
      i := i + 1;
    }
    ExplodedAt(m);
  }
}
