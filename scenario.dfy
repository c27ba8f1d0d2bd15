/** A single textured triangle, from the text of its file to its exploded
    vertices: three positions, one normal shared by all corners, three
    texture coordinates and one face. */
module Scenario {
  import opened Lex
  import opened MeshData
  import opened Loader
  import opened Explosion

  const TriangleLines: seq<string> := [
    "v 0 0 0", "v 1 0 0", "v 0 1 0",
    "vn 0 0 1",
    "vt 0 0", "vt 1 0", "vt 0 1",
    "f 1/1/1 2/2/1 3/3/1"]

  /** Position indices (1, 2, 3), normal indices (1, 1, 1), texture indices
      (1, 2, 3). */
  const TriangleFace: Face := Face([1, 2, 3], [1, 1, 1], [1, 2, 3])

  const TriangleEntries: seq<Entry> := [
      Position(Vec3("0", "0", "0")), Position(Vec3("1", "0", "0")), Position(Vec3("0", "1", "0")),
      Normal(Vec3("0", "0", "1")),
      TexCoord(Vec2("0", "0")), TexCoord(Vec2("1", "0")), TexCoord(Vec2("0", "1")),
      FaceEntry(TriangleFace)]

  const TriangleMesh: Mesh := Mesh(
    [Vec3("0", "0", "0"), Vec3("1", "0", "0"), Vec3("0", "1", "0")],
    [Vec3("0", "0", "1")],
    [Vec2("0", "0"), Vec2("1", "0"), Vec2("0", "1")],
    [TriangleFace])

  /** The face line of the file is the well-formed face line of its nine
      indices. */
  lemma TriangleFaceText()
    ensures FaceLineText([1, 1, 1, 2, 2, 1, 3, 3, 1]) == "f 1/1/1 2/2/1 3/3/1"
  {
    var vals := [1, 1, 1, 2, 2, 1, 3, 3, 1];
    FaceText(vals);
    assert Decimal(1) == "1" && Decimal(2) == "2" && Decimal(3) == "3";
  }

  lemma FaceLine()
    ensures Classify("f 1/1/1 2/2/1 3/3/1") == FaceEntry(TriangleFace)
  {
    TriangleFaceText();
    WellFormedFaceLine([1, 1, 1, 2, 2, 1, 3, 3, 1]);
  }

  // Each line of the file, classified.

  lemma Line0() ensures Classify(TriangleLines[0]) == TriangleEntries[0] {
    assert TriangleLines[0] == "v" + " " + "0" + " " + "0" + " " + "0";
    PositionLine("0", "0", "0");
  }
  lemma Line1() ensures Classify(TriangleLines[1]) == TriangleEntries[1] {
    assert TriangleLines[1] == "v" + " " + "1" + " " + "0" + " " + "0";
    PositionLine("1", "0", "0");
  }
  lemma Line2() ensures Classify(TriangleLines[2]) == TriangleEntries[2] {
    assert TriangleLines[2] == "v" + " " + "0" + " " + "1" + " " + "0";
    PositionLine("0", "1", "0");
  }
  lemma Line3() ensures Classify(TriangleLines[3]) == TriangleEntries[3] {
    assert TriangleLines[3] == "vn" + " " + "0" + " " + "0" + " " + "1";
    NormalLine("0", "0", "1");
  }
  lemma Line4() ensures Classify(TriangleLines[4]) == TriangleEntries[4] {
    assert TriangleLines[4] == "vt" + " " + "0" + " " + "0";
    TexCoordLine("0", "0");
  }
  lemma Line5() ensures Classify(TriangleLines[5]) == TriangleEntries[5] {
    assert TriangleLines[5] == "vt" + " " + "1" + " " + "0";
    TexCoordLine("1", "0");
  }
  lemma Line6() ensures Classify(TriangleLines[6]) == TriangleEntries[6] {
    assert TriangleLines[6] == "vt" + " " + "0" + " " + "1";
    TexCoordLine("0", "1");
  }
  lemma Line7() ensures Classify(TriangleLines[7]) == TriangleEntries[7] {
    FaceLine();
  }

  lemma LineAt(i: nat)
    requires i < |TriangleLines|
    ensures Classify(TriangleLines[i]) == TriangleEntries[i]
  {
    if i == 0 { Line0(); }
    else if i == 1 { Line1(); }
    else if i == 2 { Line2(); }
    else if i == 3 { Line3(); }
    else if i == 4 { Line4(); }
    else if i == 5 { Line5(); }
    else if i == 6 { Line6(); }
    else { Line7(); }
  }

  lemma TriangleClassified()
    ensures Classified(TriangleLines) == TriangleEntries
  {
    forall i | 0 <= i < |TriangleLines|
      ensures Classify(TriangleLines[i]) == TriangleEntries[i]
    {
      LineAt(i);
    }
    ClassifiedEach(TriangleLines, TriangleEntries);
  }

  lemma TriangleSelects()
    ensures LoadEntries(TriangleEntries) == TriangleMesh
  {
    var e := TriangleEntries;
    var p, n, t := TriangleMesh.positions, TriangleMesh.normals, TriangleMesh.texCoords;
    assert e[..0] == [];
    LoadPrefix(e, 0);
    LoadPrefix(e, 1);
    LoadPrefix(e, 2);
    assert LoadEntries(e[..3]) == Mesh(p, [], [], []);
    LoadPrefix(e, 3);
    LoadPrefix(e, 4);
    LoadPrefix(e, 5);
    LoadPrefix(e, 6);
    assert LoadEntries(e[..7]) == Mesh(p, n, t, []);
    LoadPrefix(e, 7);
    assert e[..8] == e;
  }

  /** The triangle file loads to exactly its three positions, one normal,
      three texture coordinates and one face. */
  lemma TriangleLoads()
    ensures LoadLines(TriangleLines) == TriangleMesh
  {
    TriangleClassified();
    TriangleSelects();
  }

  lemma TriangleInRange()
    ensures IndicesInRange(TriangleMesh)
  {
    var m := TriangleMesh;
    assert |m.faces| == 1 && |m.positions| == 3 && |m.normals| == 1 && |m.texCoords| == 3;
    assert m.faces[0] == TriangleFace;
  }

  /** The loaded triangle explodes to three vertices that take the
      positions and texture coordinates in order and all carry the one
      normal. */
  lemma TriangleExplodes()
    ensures IndicesInRange(TriangleMesh)
    ensures |Exploded(TriangleMesh)| == 3
    ensures forall k :: 0 <= k < 3 ==>
      Exploded(TriangleMesh)[k] == Vertex(TriangleMesh.positions[k], Vec3("0", "0", "1"), TriangleMesh.texCoords[k])
  {
    TriangleInRange();
    ExplodedAt(TriangleMesh);
    forall k | 0 <= k < 3
      ensures Exploded(TriangleMesh)[k] == Vertex(TriangleMesh.positions[k], Vec3("0", "0", "1"), TriangleMesh.texCoords[k])
    {
      assert Exploded(TriangleMesh)[3 * 0 + k] == CornerVertex(TriangleMesh, 0, k);
    }
  }
}
