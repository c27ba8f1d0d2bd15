/** The OBJ line loader, `loadMesh` in Model.h: each line is dispatched on
    its first word; `v`, `vn`, `vt` and `f` lines append one element to the
    positions, normals, texture coordinates or faces of the mesh, and any
    other line is skipped. Opening the file and splitting it into lines are
    not part of the model: the loader is given the lines. */
module Loader {
  import opened Lex
  import opened Scanf
  import opened MeshData

  /** The first word of a line (empty for a blank line). */
  function Tag(line: string): string {
    ReadWord(line).0
  }

  /** What follows the tag. */
  function AfterTag(line: string): string {
    ReadWord(line).1
  }

  predicate IsRecognised(tag: string) {
    tag == "v" || tag == "vn" || tag == "vt" || tag == "f"
  }

  /** Three coordinates extracted one after another, as `s >> x >> y >> z`. */
  function ReadVec3(s: string): Vec3 {
    var (x, r1) := ReadWord(s);
    var (y, r2) := ReadWord(r1);
    var (z, _) := ReadWord(r2);
    Vec3(x, y, z)
  }

  /** Two coordinates extracted one after another, as `s >> u >> v`. */
  function ReadVec2(s: string): Vec2 {
    var (u, r1) := ReadWord(s);
    var (v, _) := ReadWord(r1);
    Vec2(u, v)
  }

  /** The face an `f` line appends: a zero face, into which the face format
      scanned against the whole line has stored what it converted. */
  function ScannedFace(line: string): Face {
    FaceFormatConversions();
    StoreScanned(ZeroFace, Scan(FaceFormat, line))
  }

  /** What one line contributes to the mesh. */
  datatype Entry =
    | Position(p: Vec3)
    | Normal(n: Vec3)
    | TexCoord(t: Vec2)
    | FaceEntry(f: Face)
    | Skipped

  /** Dispatch on the tag: `v`, `vn`, `vt`, `f`, anything else. */
  function Classify(line: string): Entry {
    var (tag, rest) := ReadWord(line);
    if tag == "v" then Position(ReadVec3(rest))
    else if tag == "vn" then Normal(ReadVec3(rest))
    else if tag == "vt" then TexCoord(ReadVec2(rest))
    else if tag == "f" then FaceEntry(ScannedFace(line))
    else Skipped
  }

  /** Each recognised tag selects its own kind of entry, carrying what was
      read after the tag (or, for a face, scanned from the whole line), and
      every other tag is skipped. */
  lemma ClassifyByTag(line: string)
    ensures Tag(line) == "v" ==> Classify(line) == Position(ReadVec3(AfterTag(line)))
    ensures Tag(line) == "vn" ==> Classify(line) == Normal(ReadVec3(AfterTag(line)))
    ensures Tag(line) == "vt" ==> Classify(line) == TexCoord(ReadVec2(AfterTag(line)))
    ensures Tag(line) == "f" ==> Classify(line) == FaceEntry(ScannedFace(line))
    ensures Classify(line).Skipped? <==> !IsRecognised(Tag(line))
  {
  }

  /** The entries of a run of lines, in line order. */
  function Classified(lines: seq<string>): (es: seq<Entry>)
    ensures |es| == |lines|
  {
    if lines == [] then [] else [Classify(lines[0])] + Classified(lines[1..])
  }

  lemma {:induction false} ClassifiedAt(lines: seq<string>, i: nat)
    requires i < |lines|
    ensures Classified(lines)[i] == Classify(lines[i])
    decreases i
  {
    if i > 0 {
      ClassifiedAt(lines[1..], i - 1);
    }
  }

  lemma {:induction false} ClassifiedConcat(a: seq<string>, b: seq<string>)
    ensures Classified(a + b) == Classified(a) + Classified(b)
    decreases |a|
  {
    if a == [] {
      assert a + b == b;
    } else {
      assert (a + b)[0] == a[0];
      assert (a + b)[1..] == a[1..] + b;
      ClassifiedConcat(a[1..], b);
    }
  }

  /** The effect of one entry on the mesh under construction. */
  function Step(m: Mesh, e: Entry): Mesh {
    match e
    case Position(p) => m.(positions := m.positions + [p])
    case Normal(n) => m.(normals := m.normals + [n])
    case TexCoord(t) => m.(texCoords := m.texCoords + [t])
    case FaceEntry(f) => m.(faces := m.faces + [f])
    case Skipped => m
  }

  /** The mesh built from entries, one after another from an empty mesh. */
  function LoadEntries(es: seq<Entry>): Mesh {
    if es == [] then EmptyMesh
    else Step(LoadEntries(es[..|es| - 1]), es[|es| - 1])
  }

  /** The mesh loaded from `lines`. */
  function LoadLines(lines: seq<string>): Mesh {
    LoadEntries(Classified(lines))
  }

  /** `loadMesh`: the `while (getline)` loop over the lines, each of which
      appends to the result in place. */
  method LoadMesh(lines: seq<string>) returns (result: Mesh)
    ensures result == LoadLines(lines)
    ensures result.positions == PositionsOf(Classified(lines))
    ensures result.normals == NormalsOf(Classified(lines))
    ensures result.texCoords == TexCoordsOf(Classified(lines))
    ensures result.faces == FacesOf(Classified(lines))
  {
    result := EmptyMesh;
    var i := 0;
    while i < |lines|
      invariant i <= |lines|
      invariant result == LoadEntries(Classified(lines)[..i])
    {
      result := LoadLine(result, lines[i]);
      ClassifiedAt(lines, i);
      assert Classified(lines)[..i + 1][..i] == Classified(lines)[..i];
      i := i + 1;
    }
    assert Classified(lines)[..|lines|] == Classified(lines);
    LoadSelects(Classified(lines));
  }

  /** The body of the loop of `loadMesh`: the tag is extracted with `>>`;
      a `v`, `vn` or `vt` line extracts its coordinates from what follows
      the tag, an `f` line pushes a zero face and scans the whole line into
      it, and any other line changes nothing. */
  method LoadLine(m: Mesh, line: string) returns (r: Mesh)
    ensures r == Step(m, Classify(line))
  {
    r := m;
    var (tag, rest) := ReadWord(line);
    ClassifyByTag(line);
    if tag == "v" {
      r := r.(positions := r.positions + [ReadVec3(rest)]);
    } else if tag == "vn" {
      r := r.(normals := r.normals + [ReadVec3(rest)]);
    } else if tag == "vt" {
      r := r.(texCoords := r.texCoords + [ReadVec2(rest)]);
    } else if tag == "f" {
      r := r.(faces := r.faces + [ZeroFace]);
      var last := |r.faces| - 1;
      FaceFormatConversions();
      var face := StoreScanned(r.faces[last], Scan(FaceFormat, line));
      r := r.(faces := r.faces[last := face]);
      assert r.faces == m.faces + [ScannedFace(line)];
    } else {
      assert !IsRecognised(Tag(line));
    }
  }

  // Reference definitions: each array of the loaded mesh, read off the
  // entries directly, in line order.

  function PositionsOf(es: seq<Entry>): seq<Vec3> {
    if es == [] then []
    else (if es[0].Position? then [es[0].p] else []) + PositionsOf(es[1..])
  }

  function NormalsOf(es: seq<Entry>): seq<Vec3> {
    if es == [] then []
    else (if es[0].Normal? then [es[0].n] else []) + NormalsOf(es[1..])
  }

  function TexCoordsOf(es: seq<Entry>): seq<Vec2> {
    if es == [] then []
    else (if es[0].TexCoord? then [es[0].t] else []) + TexCoordsOf(es[1..])
  }

  function FacesOf(es: seq<Entry>): seq<Face> {
    if es == [] then []
    else (if es[0].FaceEntry? then [es[0].f] else []) + FacesOf(es[1..])
  }

  /** Selecting from two runs of entries is selecting from each in turn. */
  lemma SelectConcat(a: seq<Entry>, b: seq<Entry>)
    ensures PositionsOf(a + b) == PositionsOf(a) + PositionsOf(b)
    ensures NormalsOf(a + b) == NormalsOf(a) + NormalsOf(b)
    ensures TexCoordsOf(a + b) == TexCoordsOf(a) + TexCoordsOf(b)
    ensures FacesOf(a + b) == FacesOf(a) + FacesOf(b)
  {
    PositionsConcat(a, b);
    NormalsConcat(a, b);
    TexCoordsConcat(a, b);
    FacesConcat(a, b);
  }

  lemma {:induction false} PositionsConcat(a: seq<Entry>, b: seq<Entry>)
    ensures PositionsOf(a + b) == PositionsOf(a) + PositionsOf(b)
    decreases |a|
  {
    if a == [] {
      assert a + b == b;
    } else {
      assert (a + b)[0] == a[0];
      assert (a + b)[1..] == a[1..] + b;
      PositionsConcat(a[1..], b);
    }
  }

  lemma {:induction false} NormalsConcat(a: seq<Entry>, b: seq<Entry>)
    ensures NormalsOf(a + b) == NormalsOf(a) + NormalsOf(b)
    decreases |a|
  {
    if a == [] {
      assert a + b == b;
    } else {
      assert (a + b)[0] == a[0];
      assert (a + b)[1..] == a[1..] + b;
      NormalsConcat(a[1..], b);
    }
  }

  lemma {:induction false} TexCoordsConcat(a: seq<Entry>, b: seq<Entry>)
    ensures TexCoordsOf(a + b) == TexCoordsOf(a) + TexCoordsOf(b)
    decreases |a|
  {
    if a == [] {
      assert a + b == b;
    } else {
      assert (a + b)[0] == a[0];
      assert (a + b)[1..] == a[1..] + b;
      TexCoordsConcat(a[1..], b);
    }
  }

  lemma {:induction false} FacesConcat(a: seq<Entry>, b: seq<Entry>)
    ensures FacesOf(a + b) == FacesOf(a) + FacesOf(b)
    decreases |a|
  {
    if a == [] {
      assert a + b == b;
    } else {
      assert (a + b)[0] == a[0];
      assert (a + b)[1..] == a[1..] + b;
      FacesConcat(a[1..], b);
    }
  }

  /** Each array of the loaded mesh holds exactly the elements of the
      entries of its kind, in the order of their lines. */
  lemma {:induction false} LoadSelects(es: seq<Entry>)
    ensures LoadEntries(es) == Mesh(PositionsOf(es), NormalsOf(es), TexCoordsOf(es), FacesOf(es))
    decreases |es|
  {
    if es != [] {
      var init, last := es[..|es| - 1], es[|es| - 1];
      LoadSelects(init);
      SelectConcat(init, [last]);
      assert init + [last] == es;
      assert [last][1..] == [];
    }
  }

  /** One line appends exactly one element to exactly one array when its
      tag is recognised, and nothing otherwise; earlier elements stay where
      they were. */
  lemma StepAppendsOne(m: Mesh, e: Entry)
    ensures var r := Step(m, e);
      && r.positions == m.positions + PositionsOf([e])
      && r.normals == m.normals + NormalsOf([e])
      && r.texCoords == m.texCoords + TexCoordsOf([e])
      && r.faces == m.faces + FacesOf([e])
      && |PositionsOf([e])| + |NormalsOf([e])| + |TexCoordsOf([e])| + |FacesOf([e])|
         == if e.Skipped? then 0 else 1
  {
    assert [e][1..] == [];
  }

  /** Loading more lines only appends: what `a` loaded is a prefix of each
      array, followed by what `b` contributes on its own. */
  lemma LoadAppend(a: seq<string>, b: seq<string>)
    ensures var m, n, e := LoadLines(a), LoadLines(a + b), Classified(b);
      && n.positions == m.positions + PositionsOf(e)
      && n.normals == m.normals + NormalsOf(e)
      && n.texCoords == m.texCoords + TexCoordsOf(e)
      && n.faces == m.faces + FacesOf(e)
  {
    ClassifiedConcat(a, b);
    LoadSelects(Classified(a));
    LoadSelects(Classified(a + b));
    SelectConcat(Classified(a), Classified(b));
  }

  /** Loading one more line: a `v`, `vn` or `vt` line appends to its own
      array the vector read after the tag, an `f` line appends the face
      scanned from the whole line, and any other line leaves the mesh as
      it was. */
  lemma LoadLineByTag(a: seq<string>, line: string)
    ensures var m, n := LoadLines(a), LoadLines(a + [line]);
      && (Tag(line) == "v" ==> n == m.(positions := m.positions + [ReadVec3(AfterTag(line))]))
      && (Tag(line) == "vn" ==> n == m.(normals := m.normals + [ReadVec3(AfterTag(line))]))
      && (Tag(line) == "vt" ==> n == m.(texCoords := m.texCoords + [ReadVec2(AfterTag(line))]))
      && (Tag(line) == "f" ==> n == m.(faces := m.faces + [ScannedFace(line)]))
      && (!IsRecognised(Tag(line)) ==> n == m)
  {
    var x := Classified(a);
    ClassifiedConcat(a, [line]);
    assert Classified([line]) == [Classify(line)];
    assert (x + [Classify(line)])[..|x|] == x;
    assert LoadLines(a + [line]) == Step(LoadLines(a), Classify(line));
    ClassifyByTag(line);
  }

  /** A line with an unrecognised tag (a comment, a blank line, `o`, `s`,
      `usemtl`, ...) can be removed from the input without changing the
      loaded mesh. */
  lemma IgnoredLineSkipped(a: seq<string>, line: string, b: seq<string>)
    requires !IsRecognised(Tag(line))
    ensures LoadLines(a + [line] + b) == LoadLines(a + b)
  {
    ClassifyByTag(line);
    assert Classified([line]) == [Skipped];
    ClassifiedConcat(a + [line], b);
    ClassifiedConcat(a, [line]);
    ClassifiedConcat(a, b);
    SkippedEntryVanishes(Classified(a), Classified(b));
  }

  lemma SkippedEntryVanishes(x: seq<Entry>, y: seq<Entry>)
    ensures LoadEntries(x + [Skipped] + y) == LoadEntries(x + y)
  {
    SkippedSelectsNothing(x);
    SelectConcat(x + [Skipped], y);
    SelectConcat(x, y);
    LoadSelects(x + [Skipped] + y);
    LoadSelects(x + y);
  }

  lemma SkippedSelectsNothing(x: seq<Entry>)
    ensures PositionsOf(x + [Skipped]) == PositionsOf(x)
    ensures NormalsOf(x + [Skipped]) == NormalsOf(x)
    ensures TexCoordsOf(x + [Skipped]) == TexCoordsOf(x)
    ensures FacesOf(x + [Skipped]) == FacesOf(x)
  {
    SelectConcat(x, [Skipped]);
    assert [Skipped][1..] == [];
  }

  lemma ZeroFaceSlots()
    ensures forall k :: 0 <= k < 9 ==> Slot(ZeroFace, k) == 0
  {
  }

  /** An `f` line appends a face whose slots, in scan order, hold the values
      the scan converted before its first mismatch, and 0 after it. */
  lemma FaceLineSlots(line: string)
    requires Tag(line) == "f"
    ensures var e, vals := Classify(line), Scan(FaceFormat, line);
      && |vals| <= 9
      && e.FaceEntry?
      && forall k :: 0 <= k < 9 ==> Slot(e.f, k) == if k < |vals| then vals[k] else 0
  {
    FaceFormatConversions();
    ClassifyByTag(line);
    ZeroFaceSlots();
  }

  /** A face line indented by whitespace is still dispatched as a face, but
      the scan, which expects `f` as the first character, stores nothing:
      the loader appends an all-zero face. */
  lemma IndentedFaceLine(line: string)
    requires Tag(line) == "f" && line != [] && IsSpace(line[0])
    ensures Classify(line) == FaceEntry(ZeroFace)
  {
    FaceScanNeedsLeadingTag(line);
  }

  /** The text of a well-formed face line `f a/b/c d/e/g h/j/k`. */
  function FaceLineText(vals: seq<nat>): string
    requires |vals| == 9
  {
    Render(FaceFormat, vals)
  }

  /** A well-formed face line `f a/b/c d/e/g h/j/k` appends the face with
      position indices (a, d, h), texture indices (b, e, j) and normal
      indices (c, g, k). */
  lemma WellFormedFaceLine(vals: seq<nat>)
    requires |vals| == 9
    ensures Classify(FaceLineText(vals)) == FaceEntry(Face(
      [vals[0], vals[3], vals[6]],
      [vals[2], vals[5], vals[8]],
      [vals[1], vals[4], vals[7]]))
  {
    FaceLineTag(vals);
    FaceFormatConversions();
    FaceFormatWellSeparated();
    ScanRender(FaceFormat, vals);
    CompleteScan(vals);
  }

  lemma FaceLineTag(vals: seq<nat>)
    requires |vals| == 9
    ensures Tag(FaceLineText(vals)) == "f"
  {
    var line := FaceLineText(vals);
    var fmt1 := FaceFormat[1..];
    var rest := Render(fmt1[1..], vals);
    assert FaceFormat[0] == Literal('f') && fmt1[0] == Blank;
    assert Render(fmt1, vals) == " " + rest;
    assert line == ['f'] + Render(fmt1, vals);
    assert line == "f " + rest;
    assert SkipSpace(line) == line;
    assert WordLength(line) == 1 by {
      assert line[1..] == " " + rest;
    }
  }

  lemma Vec3Line(tag: string, x: string, y: string, z: string)
    requires IsWord(tag) && IsWord(x) && IsWord(y) && IsWord(z)
    ensures Tag(tag + " " + x + " " + y + " " + z) == tag
    ensures ReadVec3(AfterTag(tag + " " + x + " " + y + " " + z)) == Vec3(x, y, z)
  {
    var r3 := " " + z;
    var r2 := " " + y + r3;
    var r1 := " " + x + r2;
    assert tag + " " + x + " " + y + " " + z == tag + r1;
    ReadWordOf(tag, r1);
    ReadWordOf(x, r2);
    assert " " + y + r3 == " " + y + r3;
    ReadWordOf(y, r3);
    ReadWordOf(z, []);
    assert " " + z + [] == r3;
  }

  lemma Vec2Line(tag: string, u: string, v: string)
    requires IsWord(tag) && IsWord(u) && IsWord(v)
    ensures Tag(tag + " " + u + " " + v) == tag
    ensures ReadVec2(AfterTag(tag + " " + u + " " + v)) == Vec2(u, v)
  {
    var r2 := " " + v;
    var r1 := " " + u + r2;
    assert tag + " " + u + " " + v == tag + r1;
    ReadWordOf(tag, r1);
    ReadWordOf(u, r2);
    ReadWordOf(v, []);
    assert " " + v + [] == r2;
  }

  /** A well-formed vertex line `v x y z` appends the position (x, y, z);
      likewise `vn x y z` a normal and `vt u v` a texture coordinate. */
  lemma PositionLine(x: string, y: string, z: string)
    requires IsWord(x) && IsWord(y) && IsWord(z)
    ensures Classify("v" + " " + x + " " + y + " " + z) == Position(Vec3(x, y, z))
  {
    Vec3Line("v", x, y, z);
    ClassifyByTag("v" + " " + x + " " + y + " " + z);
  }

  lemma NormalLine(x: string, y: string, z: string)
    requires IsWord(x) && IsWord(y) && IsWord(z)
    ensures Classify("vn" + " " + x + " " + y + " " + z) == Normal(Vec3(x, y, z))
  {
    Vec3Line("vn", x, y, z);
    ClassifyByTag("vn" + " " + x + " " + y + " " + z);
  }

  lemma TexCoordLine(u: string, v: string)
    requires IsWord(u) && IsWord(v)
    ensures Classify("vt" + " " + u + " " + v) == TexCoord(Vec2(u, v))
  {
    Vec2Line("vt", u, v);
    ClassifyByTag("vt" + " " + u + " " + v);
  }

  /** A well-formed face line is the tag followed by its three corners. */
  lemma FaceText(vals: seq<nat>)
    requires |vals| == 9
    ensures FaceLineText(vals) == "f" + CornerText(vals[0], vals[1], vals[2])
      + CornerText(vals[3], vals[4], vals[5]) + CornerText(vals[6], vals[7], vals[8])
  {
    var v1, v2, v3 := [vals[0], vals[1], vals[2]], [vals[3], vals[4], vals[5]], [vals[6], vals[7], vals[8]];
    assert vals[..3] == v1 && vals[3..6] == v2 && vals[6..] == v3;
    FaceTextPieces(vals);
    CornerRender(vals[0], vals[1], vals[2]);
    CornerRender(vals[3], vals[4], vals[5]);
    CornerRender(vals[6], vals[7], vals[8]);
  }

  lemma FaceTextPieces(vals: seq<nat>)
    requires |vals| == 9
    ensures FaceLineText(vals) == "f" + Render(CornerFormat, vals[..3])
      + Render(CornerFormat, vals[3..6]) + Render(CornerFormat, vals[6..])
  {
    var f, c := [Literal('f')], CornerFormat;
    var v1, v2, v3 := vals[..3], vals[3..6], vals[6..];
    assert Conversions(f) == 0 && Conversions(c) == 3;
    ConversionsConcat(f, c);
    ConversionsConcat(f + c, c);
    assert vals == v1 + v2 + v3 && v1 == [] + v1;
    RenderConcat(f + c + c, c, v1 + v2, v3);
    RenderConcat(f + c, c, v1, v2);
    RenderConcat(f, c, [], v1);
    assert Render(f, []) == "f";
  }

  /** Entries given line by line determine the classification of a run. */
  lemma {:induction false} ClassifiedEach(lines: seq<string>, es: seq<Entry>)
    requires |lines| == |es|
    requires forall i :: 0 <= i < |lines| ==> Classify(lines[i]) == es[i]
    ensures Classified(lines) == es
  {
    forall i | 0 <= i < |lines| ensures Classified(lines)[i] == es[i] {
      ClassifiedAt(lines, i);
    }
  }

  /** Loading one more entry is one more step. */
  lemma LoadPrefix(es: seq<Entry>, k: nat)
    requires k < |es|
    ensures LoadEntries(es[..k + 1]) == Step(LoadEntries(es[..k]), es[k])
  {
    assert es[..k + 1][..k] == es[..k];
  }
}
