/** The extraction loop itself: walk the faces in order, append every node's
    position and oriented normal, then every triangle's shifted and
    re-wound indices, and advance the running vertex offset. */
module MeshExtraction {
  import opened Wrappers
  import opened Mesh

  /** One more node appends its three coordinates. */
  lemma FacePositionsSnoc(nodes: seq<Node>, i: nat)
    requires i < |nodes|
    ensures var p := nodes[i].point;
            FacePositions(nodes[..i + 1]) == FacePositions(nodes[..i]) + [p.x, p.y, p.z]
  {
    var p := nodes[i].point;
    var a, b := FacePositions(nodes[..i + 1]), FacePositions(nodes[..i]) + [p.x, p.y, p.z];
    assert |a| == |b|;
    forall j | 0 <= j < |a| ensures a[j] == b[j] {
      if j >= 3 * i {
        assert j / 3 == i && j % 3 == j - 3 * i;
      } else {
        assert j / 3 < i;
      }
    }
    assert a == b;
  }

  /** One more node appends its three oriented normal components. */
  lemma FaceNormalsSnoc(nodes: seq<Node>, reversed: bool, i: nat)
    requires i < |nodes|
    ensures var n := nodes[i].normal;
            FaceNormals(nodes[..i + 1], reversed) ==
              FaceNormals(nodes[..i], reversed) + [Oriented(n.x, reversed), Oriented(n.y, reversed), Oriented(n.z, reversed)]
  {
    var n := nodes[i].normal;
    var a := FaceNormals(nodes[..i + 1], reversed);
    var b := FaceNormals(nodes[..i], reversed) + [Oriented(n.x, reversed), Oriented(n.y, reversed), Oriented(n.z, reversed)];
    assert |a| == |b|;
    forall j | 0 <= j < |a| ensures a[j] == b[j] {
      if j >= 3 * i {
        assert j / 3 == i && j % 3 == j - 3 * i;
      } else {
        assert j / 3 < i;
      }
    }
    assert a == b;
  }

  /** One more triangle appends its three corners, re-wound when reversed. */
  lemma FaceIndicesSnoc(tris: seq<Triangle>, offset: int, reversed: bool, i: nat)
    requires i < |tris|
    ensures var t := tris[i];
            var n1, n2, n3 := t.n1 - 1 + offset, t.n2 - 1 + offset, t.n3 - 1 + offset;
            FaceIndices(tris[..i + 1], offset, reversed) ==
              FaceIndices(tris[..i], offset, reversed) + (if reversed then [n1, n3, n2] else [n1, n2, n3])
  {
    var t := tris[i];
    var n1, n2, n3 := t.n1 - 1 + offset, t.n2 - 1 + offset, t.n3 - 1 + offset;
    var a := FaceIndices(tris[..i + 1], offset, reversed);
    var b := FaceIndices(tris[..i], offset, reversed) + (if reversed then [n1, n3, n2] else [n1, n2, n3]);
    assert |a| == |b|;
    forall j | 0 <= j < |a| ensures a[j] == b[j] {
      if j >= 3 * i {
        assert j / 3 == i && j % 3 == j - 3 * i;
      } else {
        assert j / 3 < i;
      }
    }
    assert a == b;
  }

  /** The node loop of one face: pushes each node's position onto vertices
      and its normal times the face's direction onto normals, in node order. */
  method PushNodes(vertices: seq<real>, normals: seq<real>, nodes: seq<Node>, reversed: bool)
    returns (vertices': seq<real>, normals': seq<real>)
    ensures vertices' == vertices + FacePositions(nodes)
    ensures normals' == normals + FaceNormals(nodes, reversed)
  {
    vertices', normals' := vertices, normals;
    assert nodes[..0] == [];
    for i := 0 to |nodes|
      invariant vertices' == vertices + FacePositions(nodes[..i])
      invariant normals' == normals + FaceNormals(nodes[..i], reversed)
    {
      var p := nodes[i].point;
      FacePositionsSnoc(nodes, i);
      vertices' := vertices' + [p.x, p.y, p.z];
      var n := nodes[i].normal;
      var dir := if reversed then -1.0 else 1.0;
      var nx, ny, nz := n.x * dir, n.y * dir, n.z * dir;
      assert nx == Oriented(n.x, reversed) && ny == Oriented(n.y, reversed) && nz == Oriented(n.z, reversed);
      FaceNormalsSnoc(nodes, reversed, i);
      normals' := normals' + [nx, ny, nz];
    }
    assert nodes[..|nodes|] == nodes;
  }

  /** The triangle loop of one face: pushes each triangle's node numbers,
      made 0-based and shifted by vertexOffset, onto indices, as (n1, n2, n3)
      or as (n1, n3, n2) when the face is reversed. */
  method PushTriangles(indices: seq<int>, tris: seq<Triangle>, vertexOffset: int, reversed: bool)
    returns (indices': seq<int>)
    ensures indices' == indices + FaceIndices(tris, vertexOffset, reversed)
  {
    indices' := indices;
    assert tris[..0] == [];
    for i := 0 to |tris|
      invariant indices' == indices + FaceIndices(tris[..i], vertexOffset, reversed)
    {
      var t := tris[i];
      FaceIndicesSnoc(tris, vertexOffset, reversed, i);
      var n1 := t.n1 - 1 + vertexOffset;
      var n2 := t.n2 - 1 + vertexOffset;
      var n3 := t.n3 - 1 + vertexOffset;
      if reversed {
        indices' := indices' + [n1, n3, n2];
      } else {
        indices' := indices' + [n1, n2, n3];
      }
    }
    assert tris[..|tris|] == tris;
  }

  /** Builds the render mesh of a solid from its faces in enumeration order.
      The result is exactly Extract(faces), so everything proved about
      Extract (index bounds, placement of each face, orientation handling,
      append-only composition) holds of it. */
  method ShapeToMesh(faces: seq<Face>) returns (mesh: MeshData)
    ensures mesh == Extract(faces)
    ensures |mesh.vertices| == |mesh.normals| == 3 * NodeCount(faces)
    ensures |mesh.indices| == 3 * TriangleCount(faces)
  {
    var vertices: seq<real> := [];
    var normals: seq<real> := [];
    var indices: seq<int> := [];
    var vertexOffset := 0;
    var k := 0;
    while k < |faces|
      invariant 0 <= k <= |faces|
      invariant vertexOffset == NodeCount(faces[..k])
      invariant vertices == Vertices(faces[..k])
      invariant normals == Normals(faces[..k])
      invariant indices == Indices(faces[..k])
    {
      assert faces[..k + 1] == faces[..k] + [faces[k]];
      Snoc(faces[..k], faces[k]);
      if faces[k].Some? {
        var tri := faces[k].value;
        vertices, normals := PushNodes(vertices, normals, tri.nodes, tri.reversed);
        indices := PushTriangles(indices, tri.triangles, vertexOffset, tri.reversed);
        vertexOffset := vertexOffset + |tri.nodes|;
      }
      k := k + 1;
    }
    assert faces[..k] == faces;
    mesh := MeshData(vertices, normals, indices);
  }
}
