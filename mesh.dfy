/** The loaded, still indexed geometry: the `Face` and `Mesh` records of
    Model.h. */
module MeshData {

  /** A coordinate as the loader hands it on. Neither the loader nor the
      vertex explosion computes on coordinates, so one is kept as the text
      of the field it was read from. */
  type Scalar = string

  datatype Vec3 = Vec3(x: Scalar, y: Scalar, z: Scalar)

  datatype Vec2 = Vec2(u: Scalar, v: Scalar)

  /** Three unsigned indices, one per triangle corner. */
  type Triple = s: seq<nat> | |s| == 3 witness [0, 0, 0]

  /** One triangle: per corner, 1-based indices into the position, normal
      and texture-coordinate arrays. */
  datatype Face = Face(vi: Triple, ni: Triple, ti: Triple)

  /** The value-initialised `Face{}`: every index 0. */
  const ZeroFace: Face := Face([0, 0, 0], [0, 0, 0], [0, 0, 0])

  datatype Mesh = Mesh(positions: seq<Vec3>, normals: seq<Vec3>, texCoords: seq<Vec2>, faces: seq<Face>)

  const EmptyMesh: Mesh := Mesh([], [], [], [])

  /** The k-th index the face reader stores into a face (k < 9): corner
      k / 3, and within a corner first the position, then the texture
      coordinate, then the normal index. */
  function Slot(f: Face, k: nat): nat
    requires k < 9
  {
    match k % 3
    case 0 => f.vi[k / 3]
    case 1 => f.ti[k / 3]
    case _ => f.ni[k / 3]
  }

  /** `f` with its k-th slot overwritten by `x`. */
  function SetSlot(f: Face, k: nat, x: nat): (r: Face)
    requires k < 9
    ensures Slot(r, k) == x
    ensures forall j :: 0 <= j < 9 && j != k ==> Slot(r, j) == Slot(f, j)
  {
    match k % 3
    case 0 => f.(vi := f.vi[k / 3 := x])
    case 1 => f.(ti := f.ti[k / 3 := x])
    case _ => f.(ni := f.ni[k / 3 := x])
  }

  /** `f` after the values of a scan have been stored through pointers to
      its slots, one after another in slot order: the first |vals| slots
      hold the values, the others are as they were. */
  function StoreScanned(f: Face, vals: seq<nat>): (r: Face)
    requires |vals| <= 9
    ensures forall k :: 0 <= k < 9 ==> Slot(r, k) == if k < |vals| then vals[k] else Slot(f, k)
  {
    if vals == [] then f
    else SetSlot(StoreScanned(f, vals[..|vals| - 1]), |vals| - 1, vals[|vals| - 1])
  }

  /** A face is determined by its nine slots. */
  lemma {:induction false} FaceBySlots(f: Face, g: Face)
    requires forall k :: 0 <= k < 9 ==> Slot(f, k) == Slot(g, k)
    ensures f == g
  {
    forall c | 0 <= c < 3
      ensures f.vi[c] == g.vi[c] && f.ti[c] == g.ti[c] && f.ni[c] == g.ni[c]
    {
      assert Slot(f, 3 * c) == Slot(g, 3 * c);
      assert Slot(f, 3 * c + 1) == Slot(g, 3 * c + 1);
      assert Slot(f, 3 * c + 2) == Slot(g, 3 * c + 2);
    }
  }

  /** Storing the nine values of a complete scan into the zero face gives
      the face whose corner c has position index vals[3c], texture index
      vals[3c + 1] and normal index vals[3c + 2]. */
  lemma CompleteScan(vals: seq<nat>)
    requires |vals| == 9
    ensures StoreScanned(ZeroFace, vals) == Face(
      [vals[0], vals[3], vals[6]],
      [vals[2], vals[5], vals[8]],
      [vals[1], vals[4], vals[7]])
  {
    var g := Face([vals[0], vals[3], vals[6]], [vals[2], vals[5], vals[8]], [vals[1], vals[4], vals[7]]);
    FaceBySlots(StoreScanned(ZeroFace, vals), g);
  }
}
