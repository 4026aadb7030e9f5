/** The render mesh extracted from a triangulated solid, as a function of the
    per-face triangulations the modelling kernel hands out, and what that
    function promises: lengths, index bounds, per-face placement, orientation
    handling and append-only composition. */
module Mesh {
  import opened Wrappers

  /** A point or direction in model space. */
  datatype Vec3 = Vec3(x: real, y: real, z: real)

  /** One triangulation node: its position, already moved into model space
      by the face's location, and its normal as the triangulation stores it,
      in the triangulation's own frame (the location is not applied to it). */
  datatype Node = Node(point: Vec3, normal: Vec3)

  /** A triangle as the kernel stores it: three 1-based node numbers. */
  datatype Triangle = Triangle(n1: int, n2: int, n3: int)

  /** The triangulation of one face and whether the face is reversed with
      respect to its underlying surface. */
  datatype FaceTri = FaceTri(nodes: seq<Node>, triangles: seq<Triangle>, reversed: bool)

  /** A face of the solid in enumeration order; None when the kernel has no
      triangulation for it. */
  type Face = Option<FaceTri>

  /** The flat indexed buffer handed to the renderer. */
  datatype MeshData = MeshData(vertices: seq<real>, normals: seq<real>, indices: seq<int>)

  /** Coordinate c (0, 1 or 2) of a vector. */
  function Component(v: Vec3, c: int): real
  {
    if c == 0 then v.x else if c == 1 then v.y else v.z
  }

  /** A normal component as emitted: negated on a reversed face. Its size is
      kept and its sign changes exactly on a reversed face (when non-zero). */
  function Oriented(c: real, reversed: bool): (r: real)
    ensures r == c || r == -c
    ensures r == c <==> !reversed || c == 0.0
  {
    if reversed then -c else c
  }

  function Front<T>(s: seq<T>): seq<T> requires s != [] { s[..|s| - 1] }

  function Last<T>(s: seq<T>): T requires s != [] { s[|s| - 1] }

  // ---------------------------------------------------------------------
  // One face
  // ---------------------------------------------------------------------

  /** Every node's position, three numbers per node, in node order. */
  function FacePositions(nodes: seq<Node>): (r: seq<real>)
    ensures |r| == 3 * |nodes|
  {
    seq(3 * |nodes|, j requires 0 <= j < 3 * |nodes| => Component(nodes[j / 3].point, j % 3))
  }

  /** Every node's normal, oriented, three numbers per node, in node order. */
  function FaceNormals(nodes: seq<Node>, reversed: bool): (r: seq<real>)
    ensures |r| == 3 * |nodes|
  {
    seq(3 * |nodes|, j requires 0 <= j < 3 * |nodes| => Oriented(Component(nodes[j / 3].normal, j % 3), reversed))
  }

  /** The node number a triangle emits at corner c (0, 1 or 2): (n1, n2, n3)
      in order, or (n1, n3, n2) on a reversed face. */
  function Corner(t: Triangle, c: int, reversed: bool): (r: int)
    ensures r == t.n1 || r == t.n2 || r == t.n3
    ensures c == 0 ==> r == t.n1
    ensures !reversed && 0 <= c < 3 ==> r == [t.n1, t.n2, t.n3][c]
  {
    if c == 0 then t.n1
    else if c == 1 then (if reversed then t.n3 else t.n2)
    else (if reversed then t.n2 else t.n3)
  }

  /** Whatever the winding, a triangle's three corners are its three node
      numbers, each once. */
  lemma CornersPermute(t: Triangle, reversed: bool)
    ensures multiset{Corner(t, 0, reversed), Corner(t, 1, reversed), Corner(t, 2, reversed)}
         == multiset{t.n1, t.n2, t.n3}
  {
    if reversed {
      assert multiset{t.n1, t.n3, t.n2} == multiset{t.n1, t.n2, t.n3};
    }
  }

  /** The indices emitted for a face's triangles, in triangle order: each
      node number made 0-based and shifted by offset. */
  function FaceIndices(tris: seq<Triangle>, offset: int, reversed: bool): (r: seq<int>)
    ensures |r| == 3 * |tris|
  {
    seq(3 * |tris|, j requires 0 <= j < 3 * |tris| => Corner(tris[j / 3], j % 3, reversed) - 1 + offset)
  }

  // ---------------------------------------------------------------------
  // All faces
  // ---------------------------------------------------------------------

  /** Nodes over all faces that have a triangulation: the vertex offset the
      extraction loop has reached after these faces. It covers the nodes of
      every triangulated face. */
  function NodeCount(faces: seq<Face>): (n: nat)
    ensures forall k :: 0 <= k < |faces| && faces[k].Some? ==> |faces[k].value.nodes| <= n
  {
    if faces == [] then 0
    else
      match Last(faces)
      case None => NodeCount(Front(faces))
      case Some(f) => NodeCount(Front(faces)) + |f.nodes|
  }

  /** Triangles over all faces that have a triangulation. It covers the
      triangles of every triangulated face. */
  function TriangleCount(faces: seq<Face>): (n: nat)
    ensures forall k :: 0 <= k < |faces| && faces[k].Some? ==> |faces[k].value.triangles| <= n
  {
    if faces == [] then 0
    else
      match Last(faces)
      case None => TriangleCount(Front(faces))
      case Some(f) => TriangleCount(Front(faces)) + |f.triangles|
  }

  /** The positions of every triangulated face, in enumeration order. */
  function Vertices(faces: seq<Face>): (r: seq<real>)
    ensures |r| == 3 * NodeCount(faces)
  {
    if faces == [] then []
    else
      match Last(faces)
      case None => Vertices(Front(faces))
      case Some(f) => Vertices(Front(faces)) + FacePositions(f.nodes)
  }

  /** The oriented normals of every triangulated face, in enumeration order. */
  function Normals(faces: seq<Face>): (r: seq<real>)
    ensures |r| == 3 * NodeCount(faces)
  {
    if faces == [] then []
    else
      match Last(faces)
      case None => Normals(Front(faces))
      case Some(f) => Normals(Front(faces)) + FaceNormals(f.nodes, f.reversed)
  }

  /** The triangle indices of every triangulated face, each face's shifted
      by the nodes of the triangulated faces before it. */
  function Indices(faces: seq<Face>): (r: seq<int>)
    ensures |r| == 3 * TriangleCount(faces)
  {
    if faces == [] then []
    else
      match Last(faces)
      case None => Indices(Front(faces))
      case Some(f) => Indices(Front(faces)) + FaceIndices(f.triangles, NodeCount(Front(faces)), f.reversed)
  }

  /** The mesh built from the faces: three numbers per node in both vertex
      buffers, three indices per triangle. */
  function Extract(faces: seq<Face>): (m: MeshData)
    ensures |m.vertices| == |m.normals| == 3 * NodeCount(faces)
    ensures |m.indices| == 3 * TriangleCount(faces)
  {
    MeshData(Vertices(faces), Normals(faces), Indices(faces))
  }

  function Shift(s: seq<int>, k: int): (r: seq<int>)
    ensures |r| == |s|
    ensures forall i :: 0 <= i < |s| ==> r[i] == s[i] + k
  {
    seq(|s|, i requires 0 <= i < |s| => s[i] + k)
  }

  /** Drops the faces without a triangulation. */
  function Triangulated(faces: seq<Face>): (r: seq<Face>)
    ensures forall k :: 0 <= k < |r| ==> r[k].Some?
  {
    if faces == [] then []
    else if Last(faces).None? then Triangulated(Front(faces))
    else Triangulated(Front(faces)) + [Last(faces)]
  }

  /** Every node number of every triangle names a node of its face. */
  predicate WellIndexed(f: FaceTri)
  {
    forall j :: 0 <= j < |f.triangles| ==>
      1 <= f.triangles[j].n1 <= |f.nodes| &&
      1 <= f.triangles[j].n2 <= |f.nodes| &&
      1 <= f.triangles[j].n3 <= |f.nodes|
  }

  predicate AllWellIndexed(faces: seq<Face>)
  {
    forall k :: 0 <= k < |faces| && faces[k].Some? ==> WellIndexed(faces[k].value)
  }

  /** Every element of s lies in [lo, hi). */
  predicate InRange(s: seq<int>, lo: int, hi: int)
  {
    forall i :: 0 <= i < |s| ==> lo <= s[i] < hi
  }

  predicate Distinct3(a: int, b: int, c: int) { a != b && b != c && a != c }

  /** Every consecutive triple of s (a triangle of an index buffer) holds
      three different values. */
  predicate TriplesDistinct(s: seq<int>)
  {
    forall t :: 0 <= t < |s| / 3 ==> Distinct3(s[3 * t], s[3 * t + 1], s[3 * t + 2])
  }

  /** Every triangle of the face names three different nodes. */
  predicate NonDegenerate(f: FaceTri)
  {
    forall j :: 0 <= j < |f.triangles| ==>
      Distinct3(f.triangles[j].n1, f.triangles[j].n2, f.triangles[j].n3)
  }

  predicate AllNonDegenerate(faces: seq<Face>)
  {
    forall k :: 0 <= k < |faces| && faces[k].Some? ==> NonDegenerate(faces[k].value)
  }

  // ---------------------------------------------------------------------
  // Lemmas about one face
  // ---------------------------------------------------------------------

  /** Node i of a face: its position is copied unchanged to numbers
      3i, 3i+1 and 3i+2 of the face's positions. */
  lemma FacePositionsAt(nodes: seq<Node>, i: nat)
    requires i < |nodes|
    ensures var fp, p := FacePositions(nodes), nodes[i].point;
            fp[3 * i] == p.x && fp[3 * i + 1] == p.y && fp[3 * i + 2] == p.z
  {
    assert (3 * i) / 3 == i && (3 * i + 1) / 3 == i && (3 * i + 2) / 3 == i;
    assert (3 * i) % 3 == 0 && (3 * i + 1) % 3 == 1 && (3 * i + 2) % 3 == 2;
  }

  /** Node i of a face: its normal is copied, or negated component by
      component when the face is reversed. */
  lemma FaceNormalsAt(nodes: seq<Node>, reversed: bool, i: nat)
    requires i < |nodes|
    ensures var fn, n := FaceNormals(nodes, reversed), nodes[i].normal;
            if reversed then fn[3 * i] == -n.x && fn[3 * i + 1] == -n.y && fn[3 * i + 2] == -n.z
            else fn[3 * i] == n.x && fn[3 * i + 1] == n.y && fn[3 * i + 2] == n.z
  {
    assert (3 * i) / 3 == i && (3 * i + 1) / 3 == i && (3 * i + 2) / 3 == i;
    assert (3 * i) % 3 == 0 && (3 * i + 1) % 3 == 1 && (3 * i + 2) % 3 == 2;
  }

  /** Triangle j of a face with node numbers (n1, n2, n3) is emitted at
      3j, 3j+1, 3j+2 as (n1-1+o, n2-1+o, n3-1+o), or as
      (n1-1+o, n3-1+o, n2-1+o) when the face is reversed. */
  lemma FaceIndicesAt(tris: seq<Triangle>, o: int, reversed: bool, j: nat)
    requires j < |tris|
    ensures var fi, t := FaceIndices(tris, o, reversed), tris[j];
            fi[3 * j] == t.n1 - 1 + o &&
            fi[3 * j + 1] == (if reversed then t.n3 else t.n2) - 1 + o &&
            fi[3 * j + 2] == (if reversed then t.n2 else t.n3) - 1 + o
  {
    assert (3 * j) / 3 == j && (3 * j + 1) / 3 == j && (3 * j + 2) / 3 == j;
    assert (3 * j) % 3 == 0 && (3 * j + 1) % 3 == 1 && (3 * j + 2) % 3 == 2;
  }

  /** Shifting the running offset by k shifts every index of a face by k. */
  lemma FaceIndicesShift(tris: seq<Triangle>, offset: int, reversed: bool, k: int)
    ensures FaceIndices(tris, offset + k, reversed) == Shift(FaceIndices(tris, offset, reversed), k)
  {
  }

  /** A well-indexed face emits indices in [offset, offset + its node count). */
  lemma FaceIndicesBounded(f: FaceTri, offset: int)
    requires WellIndexed(f)
    ensures InRange(FaceIndices(f.triangles, offset, f.reversed), offset, offset + |f.nodes|)
  {
    var fi := FaceIndices(f.triangles, offset, f.reversed);
    forall i | 0 <= i < |fi|
      ensures offset <= fi[i] < offset + |f.nodes|
    {
      var t := f.triangles[i / 3];
      assert 1 <= Corner(t, i % 3, f.reversed) <= |f.nodes|;
    }
  }

  /** Each triple a face with non-degenerate triangles emits is three
      different indices. */
  lemma FaceIndicesDistinct(f: FaceTri, offset: int)
    requires NonDegenerate(f)
    ensures TriplesDistinct(FaceIndices(f.triangles, offset, f.reversed))
  {
    var fi := FaceIndices(f.triangles, offset, f.reversed);
    forall t | 0 <= t < |fi| / 3
      ensures Distinct3(fi[3 * t], fi[3 * t + 1], fi[3 * t + 2])
    {
      FaceIndicesAt(f.triangles, offset, f.reversed, t);
    }
  }

  // ---------------------------------------------------------------------
  // Lemmas about all faces
  // ---------------------------------------------------------------------

  /** Regrouping a concatenation; a hint the append proofs below need to
      stay within the solver's budget. */
  lemma AppendAssoc<T>(a: seq<T>, b: seq<T>, c: seq<T>)
    ensures (a + b) + c == a + (b + c)
  {
  }

  /** Concatenating two shifted sequences is shifting their concatenation. */
  lemma ShiftAppend(s: seq<int>, t: seq<int>, k: int)
    ensures Shift(s + t, k) == Shift(s, k) + Shift(t, k)
  {
  }

  /** Adding one more face at the end, as the extraction loop does. */
  lemma Snoc(faces: seq<Face>, x: Face)
    ensures var g := faces + [x];
            match x
            case None =>
              NodeCount(g) == NodeCount(faces) && TriangleCount(g) == TriangleCount(faces) &&
              Vertices(g) == Vertices(faces) && Normals(g) == Normals(faces) && Indices(g) == Indices(faces)
            case Some(f) =>
              NodeCount(g) == NodeCount(faces) + |f.nodes| &&
              TriangleCount(g) == TriangleCount(faces) + |f.triangles| &&
              Vertices(g) == Vertices(faces) + FacePositions(f.nodes) &&
              Normals(g) == Normals(faces) + FaceNormals(f.nodes, f.reversed) &&
              Indices(g) == Indices(faces) + FaceIndices(f.triangles, NodeCount(faces), f.reversed)
  {
    assert Front(faces + [x]) == faces;
  }

  lemma {:induction false} CountsAppend(a: seq<Face>, b: seq<Face>)
    ensures NodeCount(a + b) == NodeCount(a) + NodeCount(b)
    ensures TriangleCount(a + b) == TriangleCount(a) + TriangleCount(b)
  {
    if b == [] {
      assert a + b == a;
    } else {
      var fb, x := Front(b), Last(b);
      assert b == fb + [x];
      assert a + b == (a + fb) + [x];
      CountsAppend(a, fb);
      Snoc(a + fb, x);
      Snoc(fb, x);
    }
  }

  /** Positions are append-only: those of a + b are those of a, untouched,
      followed by those of b. */
  lemma {:induction false} VerticesAppend(a: seq<Face>, b: seq<Face>)
    ensures Vertices(a + b) == Vertices(a) + Vertices(b)
  {
    if b == [] {
      assert a + b == a;
    } else {
      var fb, x := Front(b), Last(b);
      assert b == fb + [x];
      assert a + b == (a + fb) + [x];
      VerticesAppend(a, fb);
      Snoc(a + fb, x);
      Snoc(fb, x);
      match x
      case None =>
      case Some(f) =>
        AppendAssoc(Vertices(a), Vertices(fb), FacePositions(f.nodes));
    }
  }

  /** Normals are append-only, like positions. */
  lemma {:induction false} NormalsAppend(a: seq<Face>, b: seq<Face>)
    ensures Normals(a + b) == Normals(a) + Normals(b)
  {
    if b == [] {
      assert a + b == a;
    } else {
      var fb, x := Front(b), Last(b);
      assert b == fb + [x];
      assert a + b == (a + fb) + [x];
      NormalsAppend(a, fb);
      Snoc(a + fb, x);
      Snoc(fb, x);
      match x
      case None =>
      case Some(f) =>
        AppendAssoc(Normals(a), Normals(fb), FaceNormals(f.nodes, f.reversed));
    }
  }

  /** Indices are append-only: those of a + b are those of a, untouched,
      followed by those of b shifted by the nodes of a. */
  lemma {:induction false} IndicesAppend(a: seq<Face>, b: seq<Face>)
    ensures Indices(a + b) == Indices(a) + Shift(Indices(b), NodeCount(a))
  {
    if b == [] {
      assert a + b == a;
    } else {
      var fb, x := Front(b), Last(b);
      var c := a + fb;
      assert b == fb + [x];
      assert a + b == c + [x];
      IndicesAppend(a, fb);
      CountsAppend(a, fb);
      Snoc(c, x);
      Snoc(fb, x);
      match x
      case None =>
      case Some(f) =>
        var k, o := NodeCount(a), NodeCount(fb);
        var fi := FaceIndices(f.triangles, o, f.reversed);
        FaceIndicesShift(f.triangles, o, f.reversed, k);
        AppendAssoc(Indices(a), Shift(Indices(fb), k), Shift(fi, k));
        ShiftAppend(Indices(fb), fi, k);
    }
  }

  /** Extraction is append-only: the mesh of a + b is the mesh of a, left
      untouched, followed by the mesh of b whose indices are shifted by the
      nodes of a. */
  lemma ExtractAppend(a: seq<Face>, b: seq<Face>)
    ensures Extract(a + b).vertices == Extract(a).vertices + Extract(b).vertices
    ensures Extract(a + b).normals == Extract(a).normals + Extract(b).normals
    ensures Extract(a + b).indices == Extract(a).indices + Shift(Extract(b).indices, NodeCount(a))
  {
    VerticesAppend(a, b);
    NormalsAppend(a, b);
    IndicesAppend(a, b);
  }

  /** Where a triangulated face k lands: its positions and normals start at
      three times the nodes of the faces before it, its indices at three
      times their triangles, and its indices are offset by their nodes. */
  lemma ExtractFaceAt(faces: seq<Face>, k: nat)
    requires k < |faces| && faces[k].Some?
    ensures var m, f := Extract(faces), faces[k].value;
            var v, t := 3 * NodeCount(faces[..k]), 3 * TriangleCount(faces[..k]);
            v + 3 * |f.nodes| <= |m.vertices| && t + 3 * |f.triangles| <= |m.indices| &&
            m.vertices[v .. v + 3 * |f.nodes|] == FacePositions(f.nodes) &&
            m.normals[v .. v + 3 * |f.nodes|] == FaceNormals(f.nodes, f.reversed) &&
            m.indices[t .. t + 3 * |f.triangles|] == FaceIndices(f.triangles, NodeCount(faces[..k]), f.reversed)
  {
    var pre, upto, post := faces[..k], faces[..k + 1], faces[k + 1..];
    assert faces == upto + post;
    assert upto == pre + [faces[k]];
    Snoc(pre, faces[k]);
    VerticesAppend(upto, post);
    NormalsAppend(upto, post);
    IndicesAppend(upto, post);
  }

  /** When every face is well indexed, every emitted index names a vertex:
      0 <= index < |vertices| / 3. */
  lemma {:induction false} IndicesInBounds(faces: seq<Face>)
    requires AllWellIndexed(faces)
    ensures InRange(Extract(faces).indices, 0, |Extract(faces).vertices| / 3)
  {
    if faces != [] {
      var front, x := Front(faces), Last(faces);
      assert faces == front + [x];
      assert AllWellIndexed(front) by {
        forall k | 0 <= k < |front| && front[k].Some? ensures WellIndexed(front[k].value) {
          assert front[k] == faces[k];
        }
      }
      IndicesInBounds(front);
      Snoc(front, x);
      match x
      case None =>
      case Some(f) =>
        assert WellIndexed(faces[|faces| - 1].value);
        FaceIndicesBounded(f, NodeCount(front));
        InRangeAppend(Indices(front), FaceIndices(f.triangles, NodeCount(front), f.reversed), NodeCount(front), NodeCount(faces));
    }
  }

  /** Indices below mid followed by indices in [mid, hi) are all below hi. */
  lemma InRangeAppend(s: seq<int>, u: seq<int>, mid: int, hi: int)
    requires 0 <= mid <= hi && InRange(s, 0, mid) && InRange(u, mid, hi)
    ensures InRange(s + u, 0, hi)
  {
    var su := s + u;
    forall i | 0 <= i < |su| ensures 0 <= su[i] < hi {
      if i < |s| {
        assert su[i] == s[i];
      } else {
        assert su[i] == u[i - |s|];
      }
    }
  }

  lemma TriplesDistinctAppend(s: seq<int>, u: seq<int>)
    requires |s| % 3 == 0 && TriplesDistinct(s) && TriplesDistinct(u)
    ensures TriplesDistinct(s + u)
  {
    var su := s + u;
    forall t | 0 <= t < |su| / 3
      ensures Distinct3(su[3 * t], su[3 * t + 1], su[3 * t + 2])
    {
      if 3 * t < |s| {
        assert su[3 * t] == s[3 * t] && su[3 * t + 1] == s[3 * t + 1] && su[3 * t + 2] == s[3 * t + 2];
      } else {
        var v := t - |s| / 3;
        assert su[3 * t] == u[3 * v] && su[3 * t + 1] == u[3 * v + 1] && su[3 * t + 2] == u[3 * v + 2];
      }
    }
  }

  /** When no triangle repeats a node number, every emitted triangle is three
      different indices. */
  lemma {:induction false} TrianglesDistinct(faces: seq<Face>)
    requires AllNonDegenerate(faces)
    ensures TriplesDistinct(Extract(faces).indices)
  {
    if faces != [] {
      var front, x := Front(faces), Last(faces);
      assert faces == front + [x];
      assert AllNonDegenerate(front) by {
        forall k | 0 <= k < |front| && front[k].Some? ensures NonDegenerate(front[k].value) {
          assert front[k] == faces[k];
        }
      }
      TrianglesDistinct(front);
      Snoc(front, x);
      match x
      case None =>
      case Some(f) =>
        assert NonDegenerate(faces[|faces| - 1].value);
        FaceIndicesDistinct(f, NodeCount(front));
        TriplesDistinctAppend(Indices(front), FaceIndices(f.triangles, NodeCount(front), f.reversed));
    }
  }

  /** Faces without a triangulation contribute nothing anywhere: dropping
      them leaves the node count and the mesh unchanged. */
  lemma {:induction false} UntriangulatedFacesIgnored(faces: seq<Face>)
    ensures NodeCount(Triangulated(faces)) == NodeCount(faces)
    ensures Extract(Triangulated(faces)) == Extract(faces)
  {
    if faces != [] {
      var front, x := Front(faces), Last(faces);
      assert faces == front + [x];
      UntriangulatedFacesIgnored(front);
      Snoc(front, x);
      if x.Some? {
        Snoc(Triangulated(front), x);
      }
    }
  }
}
