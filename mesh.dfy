/**
 * Mesh.cpp: the in-memory mesh of a model, its GPU upload, its per-vertex
 * normals, its axis-aligned bounding box, and reading it back from a
 * ".vroom" library file.
 *
 * Floats are 32-bit patterns. Only the bounding box compares them, with the
 * IEEE-754 order (a NaN is unordered; -0 and +0 are equal). The face-normal
 * arithmetic of CalculateNormals is an input (FloatOps): only which entries
 * it touches, and in which order, is modelled.
 */
module Meshes {
  import opened Common
  import opened FileSystem
  import opened Gl
  import opened Resources
  import opened ModelImporter

  // ---------------------------------------------------------------------
  // Float order and the bounding box
  // ---------------------------------------------------------------------

  /** std::numeric_limits<float>::max() and ::lowest(). */
  const FLT_MAX: Float32 := 0x7F7F_FFFF
  const FLT_LOWEST: Float32 := 0xFF7F_FFFF

  predicate IsNaN(w: Float32)
  {
    (w / 0x80_0000) % 0x100 == 0xFF && w % 0x80_0000 != 0
  }

  /** The position of a non-NaN float on the number line, as an integer; both zeros map to 0. */
  function Key(w: Float32): int
  {
    if w >= 0x8000_0000 then -(w - 0x8000_0000) else w
  }

  /** The float comparison `a < b`: false whenever either side is NaN. */
  predicate FloatLess(a: Float32, b: Float32)
  {
    !IsNaN(a) && !IsNaN(b) && Key(a) < Key(b)
  }

  /** std::min(acc, x), which returns `x < acc ? x : acc`. */
  function MinF(acc: Float32, x: Float32): Float32
  {
    if FloatLess(x, acc) then x else acc
  }

  /** std::max(acc, x), which returns `acc < x ? x : acc`. */
  function MaxF(acc: Float32, x: Float32): Float32
  {
    if FloatLess(acc, x) then x else acc
  }

  datatype AABB = AABB(min: Vec3, max: Vec3)

  /** The reset box: min at the largest float, max at the lowest. */
  const EmptyAabb: AABB := AABB(Vec3(FLT_MAX, FLT_MAX, FLT_MAX), Vec3(FLT_LOWEST, FLT_LOWEST, FLT_LOWEST))

  datatype Axis = X | Y | Z

  function Coord(v: Vec3, a: Axis): Float32
  {
    match a
    case X => v.x
    case Y => v.y
    case Z => v.z
  }

  /** One step of CalculateAABB: each bound moved to take in one position. */
  function Extend(box: AABB, p: Vec3): (r: AABB)
    ensures forall a :: Coord(r.min, a) == MinF(Coord(box.min, a), Coord(p, a))
    ensures forall a :: Coord(r.max, a) == MaxF(Coord(box.max, a), Coord(p, a))
  {
    AABB(Vec3(MinF(box.min.x, p.x), MinF(box.min.y, p.y), MinF(box.min.z, p.z)),
         Vec3(MaxF(box.max.x, p.x), MaxF(box.max.y, p.y), MaxF(box.max.z, p.z)))
  }

  /** The box CalculateAABB computes for a vertex list. */
  function AabbOf(vs: seq<Vertex>): AABB
  {
    if vs == [] then EmptyAabb else Extend(AabbOf(vs[..|vs| - 1]), vs[|vs| - 1].position)
  }

  /** The bounds are never NaN: a NaN coordinate is never taken. */
  lemma {:induction false} AabbNotNaN(vs: seq<Vertex>, a: Axis)
    ensures !IsNaN(Coord(AabbOf(vs).min, a)) && !IsNaN(Coord(AabbOf(vs).max, a))
    decreases |vs|
  {
    if vs != [] {
      AabbNotNaN(vs[..|vs| - 1], a);
    }
  }

  /** Every coordinate that is a number lies between the bounds of its axis. */
  lemma {:induction false} AabbContains(vs: seq<Vertex>, a: Axis, k: nat)
    requires k < |vs| && !IsNaN(Coord(vs[k].position, a))
    ensures Key(Coord(AabbOf(vs).min, a)) <= Key(Coord(vs[k].position, a)) <= Key(Coord(AabbOf(vs).max, a))
    decreases |vs|
  {
    var front := vs[..|vs| - 1];
    AabbNotNaN(front, a);
    if k < |vs| - 1 {
      assert front[k] == vs[k];
      AabbContains(front, a, k);
    }
  }

  /** A coordinate that is a number below the largest float: one that can lower the min bound. */
  predicate BelowMax(v: Vertex, a: Axis)
  {
    !IsNaN(Coord(v.position, a)) && Key(Coord(v.position, a)) < Key(FLT_MAX)
  }

  /** A coordinate that is a number above the lowest float: one that can raise the max bound. */
  predicate AboveLowest(v: Vertex, a: Axis)
  {
    !IsNaN(Coord(v.position, a)) && Key(Coord(v.position, a)) > Key(FLT_LOWEST)
  }

  /** Without a coordinate below the largest float on an axis, its lower bound stays at the sentinel. */
  lemma {:induction false} AabbMinSentinel(vs: seq<Vertex>, a: Axis)
    requires forall k :: 0 <= k < |vs| ==> !BelowMax(vs[k], a)
    ensures Coord(AabbOf(vs).min, a) == FLT_MAX
    decreases |vs|
  {
    if vs != [] {
      var front := vs[..|vs| - 1];
      assert forall k :: 0 <= k < |front| ==> front[k] == vs[k];
      AabbMinSentinel(front, a);
    }
  }

  /** Without a coordinate above the lowest float on an axis, its upper bound stays at the sentinel. */
  lemma {:induction false} AabbMaxSentinel(vs: seq<Vertex>, a: Axis)
    requires forall k :: 0 <= k < |vs| ==> !AboveLowest(vs[k], a)
    ensures Coord(AabbOf(vs).max, a) == FLT_LOWEST
    decreases |vs|
  {
    if vs != [] {
      var front := vs[..|vs| - 1];
      assert forall k :: 0 <= k < |front| ==> front[k] == vs[k];
      AabbMaxSentinel(front, a);
    }
  }

  /**
   * The lower bound is some vertex's coordinate as soon as one coordinate
   * of that axis is a number no larger than the largest float.
   */
  lemma {:induction false} AabbMinAttained(vs: seq<Vertex>, a: Axis, k: nat)
    requires k < |vs| && !IsNaN(Coord(vs[k].position, a)) && Key(Coord(vs[k].position, a)) <= Key(FLT_MAX)
    ensures exists j :: 0 <= j < |vs| && Coord(AabbOf(vs).min, a) == Coord(vs[j].position, a)
    decreases |vs|
  {
    var n := |vs| - 1;
    var front := vs[..n];
    var c := Coord(vs[n].position, a);
    var prev := Coord(AabbOf(front).min, a);
    var bound := Coord(AabbOf(vs).min, a);
    assert bound == MinF(prev, c);
    if j :| 0 <= j < n && BelowMax(front[j], a) {
      AabbMinAttained(front, a, j);
      var i :| 0 <= i < n && prev == Coord(front[i].position, a);
      if FloatLess(c, prev) {
        assert bound == Coord(vs[n].position, a);
      } else {
        assert front[i] == vs[i];
        assert bound == Coord(vs[i].position, a);
      }
    } else {
      AabbMinSentinel(front, a);
      if FloatLess(c, FLT_MAX) {
        assert bound == Coord(vs[n].position, a);
      } else {
        assert k < n ==> front[k] == vs[k] && !BelowMax(front[k], a);
        assert Coord(vs[k].position, a) == FLT_MAX;
        assert bound == Coord(vs[k].position, a);
      }
    }
  }

  /** The upper bound is some vertex's coordinate as soon as one coordinate of that axis is a number no smaller than the lowest float. */
  lemma {:induction false} AabbMaxAttained(vs: seq<Vertex>, a: Axis, k: nat)
    requires k < |vs| && !IsNaN(Coord(vs[k].position, a)) && Key(Coord(vs[k].position, a)) >= Key(FLT_LOWEST)
    ensures exists j :: 0 <= j < |vs| && Coord(AabbOf(vs).max, a) == Coord(vs[j].position, a)
    decreases |vs|
  {
    var n := |vs| - 1;
    var front := vs[..n];
    var c := Coord(vs[n].position, a);
    var prev := Coord(AabbOf(front).max, a);
    var bound := Coord(AabbOf(vs).max, a);
    assert bound == MaxF(prev, c);
    if j :| 0 <= j < n && AboveLowest(front[j], a) {
      AabbMaxAttained(front, a, j);
      var i :| 0 <= i < n && prev == Coord(front[i].position, a);
      if FloatLess(prev, c) {
        assert bound == Coord(vs[n].position, a);
      } else {
        assert front[i] == vs[i];
        assert bound == Coord(vs[i].position, a);
      }
    } else {
      AabbMaxSentinel(front, a);
      if FloatLess(FLT_LOWEST, c) {
        assert bound == Coord(vs[n].position, a);
      } else {
        assert k < n ==> front[k] == vs[k] && !AboveLowest(front[k], a);
        assert Coord(vs[k].position, a) == FLT_LOWEST;
        assert bound == Coord(vs[k].position, a);
      }
    }
  }

  // ---------------------------------------------------------------------
  // Normals
  // ---------------------------------------------------------------------

  /** The float arithmetic CalculateNormals uses: the normalised face normal of a triangle, and vector addition. */
  datatype FloatOps = FloatOps(faceNormal: (Vec3, Vec3, Vec3) -> Vec3, add: (Vec3, Vec3) -> Vec3)

  /** std::vector::resize: truncated, or extended with copies of `fill`. */
  function Resized<T>(s: seq<T>, n: nat, fill: T): (r: seq<T>)
    ensures |r| == n
    ensures forall i :: 0 <= i < n ==> r[i] == if i < |s| then s[i] else fill
  {
    if |s| >= n then s[..n] else s + seq(n - |s|, _ => fill)
  }

  /** Index lists CalculateNormals can walk: whole triangles, each corner naming an existing vertex. */
  predicate ValidTriangles(indices: seq<u32>, vertexCount: nat)
  {
    |indices| % 3 == 0 && forall k :: 0 <= k < |indices| ==> indices[k] < vertexCount
  }

  /** Triangle `f` added to the normals of its three corners, one corner after the other. */
  function AddFace(ns: seq<Vec3>, vs: seq<Vertex>, indices: seq<u32>, f: nat, ops: FloatOps): (r: seq<Vec3>)
    requires |ns| == |vs| && 3 * f + 2 < |indices| && ValidTriangles(indices, |vs|)
    ensures |r| == |ns|
  {
    var a, b, c := indices[3 * f], indices[3 * f + 1], indices[3 * f + 2];
    var normal := ops.faceNormal(vs[a].position, vs[b].position, vs[c].position);
    var n1 := ns[a := ops.add(ns[a], normal)];
    var n2 := n1[b := ops.add(n1[b], normal)];
    n2[c := ops.add(n2[c], normal)]
  }

  /** The index walk of CalculateNormals, three indices at a time, over the resized normals. */
  method SumFaceNormals(base: seq<Vec3>, vs: seq<Vertex>, indices: seq<u32>, ops: FloatOps) returns (ns: seq<Vec3>)
    requires |base| == |vs| && ValidTriangles(indices, |vs|)
    ensures ns == NormalsAfter(base, vs, indices, |indices| / 3, ops)
  {
    ghost var triangles := |indices| / 3;
    assert |indices| == 3 * triangles;
    ns := base;
    var i := 0;
    ghost var t := 0;
    while i < |indices|
      invariant 0 <= t <= triangles && i == 3 * t
      invariant ns == NormalsAfter(base, vs, indices, t, ops)
    {
      ns := AddTriangleNormal(ns, vs, indices, i, t, ops);
      i, t := i + 3, t + 1;
    }
  }

  /** The body of the normal loop: the face normal of triangle `f`, whose corners start at index `i`, added to its three corners. */
  method AddTriangleNormal(ns: seq<Vec3>, vs: seq<Vertex>, indices: seq<u32>, i: nat, ghost f: nat, ops: FloatOps) returns (r: seq<Vec3>)
    requires |ns| == |vs| && i == 3 * f && i + 2 < |indices| && ValidTriangles(indices, |vs|)
    ensures r == AddFace(ns, vs, indices, f, ops)
  {
    var a, b, c := indices[i], indices[i + 1], indices[i + 2];
    var normal := ops.faceNormal(vs[a].position, vs[b].position, vs[c].position);
    r := ns[a := ops.add(ns[a], normal)];
    r := r[b := ops.add(r[b], normal)];
    r := r[c := ops.add(r[c], normal)];
  }

  /** The normals after the first `t` triangles have been added. */
  function NormalsAfter(base: seq<Vec3>, vs: seq<Vertex>, indices: seq<u32>, t: nat, ops: FloatOps): (r: seq<Vec3>)
    requires |base| == |vs| && 3 * t <= |indices| && ValidTriangles(indices, |vs|)
    ensures |r| == |vs|
  {
    if t == 0 then base else AddFace(NormalsAfter(base, vs, indices, t - 1, ops), vs, indices, t - 1, ops)
  }

  /** A vertex that no triangle names keeps the normal it had before the sums. */
  lemma {:induction false} UnreferencedNormalKept(base: seq<Vec3>, vs: seq<Vertex>, indices: seq<u32>, t: nat, ops: FloatOps, v: nat)
    requires |base| == |vs| && 3 * t <= |indices| && ValidTriangles(indices, |vs|)
    requires v < |vs| && forall k :: 0 <= k < 3 * t ==> indices[k] != v
    ensures NormalsAfter(base, vs, indices, t, ops)[v] == base[v]
    decreases t
  {
    if t > 0 {
      UnreferencedNormalKept(base, vs, indices, t - 1, ops, v);
      assert indices[3 * (t - 1)] != v && indices[3 * (t - 1) + 1] != v && indices[3 * (t - 1) + 2] != v;
    }
  }

  /** The normals CalculateNormals leaves: one per vertex, the face normals summed onto the resized list. */
  function NormalsOf(old_normals: seq<Vec3>, vs: seq<Vertex>, indices: seq<u32>, ops: FloatOps): (r: seq<Vec3>)
    requires ValidTriangles(indices, |vs|)
    ensures |r| == |vs|
  {
    NormalsAfter(Resized(old_normals, |vs|, ZeroVec3), vs, indices, |indices| / 3, ops)
  }

  // ---------------------------------------------------------------------
  // Reading a library file
  // ---------------------------------------------------------------------

  /** The floats of one vertex: position, normal, texture coordinate. */
  const FLOATS_PER_VERTEX: nat := 8

  /** Vertex `i` of a library file: position, normal and texture coordinate read in that order. */
  function ReadVertex(b: seq<byte>, i: nat): Vertex
  {
    WordsVertex(WordsAt(b, 8 + 32 * i, FLOATS_PER_VERTEX))
  }

  /** The first `n` vertices of a library file. */
  function ReadVertices(b: seq<byte>, n: nat): (r: seq<Vertex>)
    ensures |r| == n && forall i :: 0 <= i < n ==> r[i] == ReadVertex(b, i)
  {
    if n == 0 then [] else ReadVertices(b, n - 1) + [ReadVertex(b, n - 1)]
  }

  /** Words read from consecutive offsets are a slice of one longer read. */
  lemma {:induction false} WordsAtSlice(b: seq<byte>, off: nat, n: nat, i: nat, m: nat)
    requires i + m <= n
    ensures WordsAt(b, off + 4 * i, m) == WordsAt(b, off, n)[i..i + m]
    decreases n
  {
    if n > 0 {
      if i == 0 {
        if m > 0 {
          WordsAtSlice(b, off + 4, n - 1, 0, m - 1);
        }
      } else {
        WordsAtSlice(b, off + 4, n - 1, i - 1, m);
        assert off + 4 * i == off + 4 + 4 * (i - 1);
      }
    }
  }

  /** Reading the vertices of a file is reading its float block eight floats at a time. */
  lemma ReadVerticesDeinterleave(b: seq<byte>, n: nat)
    ensures ReadVertices(b, n) == Deinterleave(WordsAt(b, 8, 8 * n))
  {
    var ws := WordsAt(b, 8, 8 * n);
    assert |ws| % 8 == 0 && |ws| / 8 == n;
    var rv, ds := ReadVertices(b, n), Deinterleave(ws);
    forall i | 0 <= i < n
      ensures rv[i] == ds[i]
    {
      ReadVertexDeinterleave(b, n, i);
    }
  }

  lemma ReadVertexDeinterleave(b: seq<byte>, n: nat, i: nat)
    requires i < n
    ensures ReadVertex(b, i) == Deinterleave(WordsAt(b, 8, 8 * n))[i]
  {
    ReadVertexWords(b, n, i);
    DeinterleaveAt(WordsAt(b, 8, 8 * n), n, i);
  }

  /** The eight floats of vertex `i` are its slice of the whole float block. */
  lemma ReadVertexWords(b: seq<byte>, n: nat, i: nat)
    requires i < n
    ensures WordsAt(b, 8 + 32 * i, FLOATS_PER_VERTEX) == WordsAt(b, 8, 8 * n)[8 * i..8 * i + 8]
  {
    WordsAtSlice(b, 8, 8 * n, 8 * i, FLOATS_PER_VERTEX);
    assert 8 + 4 * (8 * i) == 8 + 32 * i;
  }

  /** Vertex `i` of a deinterleaved block of `n` vertices is built from floats 8i to 8i+8. */
  lemma {:induction false} DeinterleaveAt(ws: seq<u32>, n: nat, i: nat)
    requires |ws| == 8 * n && i < n
    ensures |ws| % 8 == 0 && Deinterleave(ws)[i] == WordsVertex(ws[8 * i..8 * i + 8])
    decreases n
  {
    var front := ws[..|ws| - 8];
    if i < n - 1 {
      DeinterleaveAt(front, n - 1, i);
      assert front[8 * i..8 * i + 8] == ws[8 * i..8 * i + 8];
    }
  }

  /** What Mesh::Load takes from a file: the announced vertices, then the announced indices. */
  function ArtifactVertices(b: seq<byte>): seq<Vertex>
  {
    ReadVertices(b, WordAt(b, 0))
  }

  function ArtifactIndices(b: seq<byte>): seq<u32>
  {
    WordsAt(b, 8 + 32 * WordAt(b, 0), WordAt(b, 4))
  }

  /** A file whose indices form whole triangles over its vertices. */
  predicate ValidArtifact(b: seq<byte>)
  {
    ValidTriangles(ArtifactIndices(b), |ArtifactVertices(b)|)
  }

  /** Mesh::Load reads what ModelImporter writes: the vertices and triangles of the imported mesh. */
  lemma ImportedMeshReadsBack(m: AiMesh)
    requires WellFormedMesh(m) && |TriangleIndices(m.faces)| < U32_LIMIT
    ensures var b := EncodeMesh(MeshDataOf(m));
      ArtifactVertices(b) == ImportedVertices(m, |m.positions|)
      && ArtifactIndices(b) == TriangleIndices(m.faces)
  {
    var d := MeshDataOf(m);
    var b := EncodeMesh(d);
    var vs := ImportedVertices(m, |m.positions|);
    assert d.vertexCount == |m.positions| && d.vertices == Interleave(vs);
    assert d.indices == TriangleIndices(m.faces);
    MeshRoundTrip(d);
    var r := DecodeMesh(b);
    assert r.vertexCount == WordAt(b, 0) && r.vertices == WordsAt(b, 8, 8 * WordAt(b, 0));
    assert r.indices == ArtifactIndices(b);
    ReadVerticesDeinterleave(b, d.vertexCount);
    DeinterleaveInterleave(vs);
  }

  /** The triangles an import keeps name only vertices of the mesh, so the file it writes passes the index check. */
  lemma ImportedMeshValid(m: AiMesh)
    requires WellFormedMesh(m) && |TriangleIndices(m.faces)| < U32_LIMIT
    requires forall f, k :: 0 <= f < |m.faces| && 0 <= k < |m.faces[f]| ==> m.faces[f][k] < |m.positions|
    ensures ValidArtifact(EncodeMesh(MeshDataOf(m)))
  {
    ImportedMeshReadsBack(m);
    var tri := TriangleIndices(m.faces);
    forall k | 0 <= k < |tri|
      ensures tri[k] < |m.positions|
    {
      TriangleIndicesFromTriangles(m.faces, k);
    }
  }

  /**
   * Mesh::Load hands the indices of the file to CalculateNormals unchecked:
   * a file announcing no vertices and the triangle (0, 0, 0) is read, and
   * the normal pass then reads vertex 0, which does not exist.
   */
  lemma UncheckedIndicesReachNormals()
    ensures var b := WordBytes(0) + WordBytes(3) + WordsBytes([0, 0, 0]);
      |ArtifactVertices(b)| == 0 && ArtifactIndices(b) == [0, 0, 0]
      && !ValidArtifact(b)
  {
    var b := WordBytes(0) + WordBytes(3) + WordsBytes([0, 0, 0]);
    WordRoundTrip(0, [], WordBytes(3) + WordsBytes([0, 0, 0]));
    assert b == [] + WordBytes(0) + (WordBytes(3) + WordsBytes([0, 0, 0]));
    WordRoundTrip(3, WordBytes(0), WordsBytes([0, 0, 0]));
    assert b == WordBytes(0) + WordBytes(3) + (WordsBytes([0, 0, 0]));
    BlockRoundTrip([0, 0, 0], WordBytes(0) + WordBytes(3), []);
    assert b == (WordBytes(0) + WordBytes(3)) + WordsBytes([0, 0, 0]) + [];
  }

  // ---------------------------------------------------------------------
  // The mesh
  // ---------------------------------------------------------------------

  class Mesh {
    const base: Resource
    var vertices: seq<Vertex>
    var indices: seq<u32>
    var normals: seq<Vec3>
    var aabb: AABB
    var vao: Handle
    var vbo: Handle
    var ebo: Handle

    /** Mesh(): an empty resource named "EmptyMesh" with the reset box. */
    constructor Empty()
      ensures fresh(base) && base.kind == MeshResource && base.fileName == "EmptyMesh"
      ensures vertices == [] && indices == [] && normals == [] && aabb == EmptyAabb
    {
      base := new Resource(MeshResource, "EmptyMesh");
      vertices, indices, normals := [], [], [];
      aabb := EmptyAabb;
      vao, vbo, ebo := 0, 0, 0;
    }

    /** Mesh(vertices, indices, textures): uploaded, with its normals and its box computed. */
    constructor(vs: seq<Vertex>, ixs: seq<u32>, gl: Context, ops: FloatOps)
      requires gl.Valid() && ValidTriangles(ixs, |vs|)
      modifies gl`live, gl`next, gl`buffers
      ensures gl.Valid()
      ensures fresh(base) && base.kind == MeshResource && base.fileName == "Mesh"
      ensures vertices == vs && indices == ixs
      ensures normals == NormalsOf([], vs, ixs, ops) && aabb == AabbOf(vs)
      ensures Uploaded(this, gl)
      ensures vao !in old(gl.live) && vbo !in old(gl.live) && ebo !in old(gl.live)
      ensures gl.live == old(gl.live) + {vao, vbo, ebo}
      ensures gl.buffers == old(gl.buffers)[vbo := Interleave(vs)][ebo := ixs]
    {
      base := new Resource(MeshResource, "Mesh");
      vertices, indices, normals := vs, ixs, [];
      aabb := EmptyAabb;
      vao, vbo, ebo := 0, 0, 0;
      new;
      SetupMesh(gl);
      CalculateNormals(ops);
      CalculateAABB();
    }

    /** Mesh::setupMesh: three new names every time, the vertices and the indices uploaded. */
    method SetupMesh(gl: Context)
      requires gl.Valid()
      modifies this`vao, this`vbo, this`ebo, gl`live, gl`next, gl`buffers
      ensures gl.Valid() && Uploaded(this, gl)
      ensures vao !in old(gl.live) && vbo !in old(gl.live) && ebo !in old(gl.live)
      ensures gl.live == old(gl.live) + {vao, vbo, ebo}
      ensures gl.buffers == old(gl.buffers)[vbo := Interleave(vertices)][ebo := indices]
    {
      vao := gl.Gen();
      vbo := gl.Gen();
      ebo := gl.Gen();
      gl.BufferData(vbo, Interleave(vertices));
      gl.BufferData(ebo, indices);
    }

    /** Mesh::CalculateAABB: the reset box, extended by each vertex position in turn. */
    method CalculateAABB()
      modifies this`aabb
      ensures aabb == AabbOf(vertices)
    {
      aabb := EmptyAabb;
      var i := 0;
      while i < |vertices|
        invariant 0 <= i <= |vertices|
        invariant aabb == AabbOf(vertices[..i])
      {
        assert vertices[..i + 1][..i] == vertices[..i];
        var p := vertices[i].position;
        aabb := AABB(Vec3(MinF(aabb.min.x, p.x), MinF(aabb.min.y, p.y), MinF(aabb.min.z, p.z)),
                     Vec3(MaxF(aabb.max.x, p.x), MaxF(aabb.max.y, p.y), MaxF(aabb.max.z, p.z)));
        i := i + 1;
      }
      assert vertices[..i] == vertices;
    }

    /**
     * Mesh::CalculateNormals: the list resized to one zero-extended entry
     * per vertex, then each triangle's normal added to its three corners.
     * The closing normalisation loop works on copies and changes nothing.
     */
    method CalculateNormals(ops: FloatOps)
      requires ValidTriangles(indices, |vertices|)
      modifies this`normals
      ensures normals == NormalsOf(old(normals), vertices, indices, ops)
    {
      normals := Resized(normals, |vertices|, ZeroVec3);
      normals := SumFaceNormals(normals, vertices, indices, ops);
    }

    /**
     * Mesh::Load with the index check the normal pass needs: nothing
     * changes for an empty library path, a file that does not open, or a
     * file whose indices do not form whole triangles over its vertices;
     * otherwise the mesh takes the file's vertices and indices, is uploaded
     * again, and its normals and box are recomputed.
     */
    method Load(fs: FileSystem, gl: Context, ops: FloatOps)
      requires gl.Valid()
      modifies this`vertices, this`indices, this`normals, this`aabb, this`vao, this`vbo, this`ebo,
        gl`live, gl`next, gl`buffers
      ensures gl.Valid()
      ensures !LibraryFileReadable(base.libraryPath, fs.disk) ==> unchanged(this) && unchanged(gl)
      ensures LibraryFileReadable(base.libraryPath, fs.disk) ==>
        var b := fs.disk[base.libraryPath].data;
        if !ValidArtifact(b) then
          unchanged(this) && unchanged(gl)
        else
          vertices == ArtifactVertices(b) && indices == ArtifactIndices(b)
          && normals == NormalsOf(old(normals), vertices, indices, ops) && aabb == AabbOf(vertices)
          && Uploaded(this, gl)
          && vao !in old(gl.live) && vbo !in old(gl.live) && ebo !in old(gl.live)
          && gl.live == old(gl.live) + {vao, vbo, ebo}
          && gl.buffers == old(gl.buffers)[vbo := Interleave(vertices)][ebo := indices]
    {
      var path := base.libraryPath;
      if path == "" {
        return;
      }
      var contents := fs.ReadFile(path);
      if contents.None? {
        return;
      }
      var b := contents.value;
      assert b == fs.disk[path].data;
      var vs := ReadArtifactVertices(b);
      var ixs := WordsAt(b, 8 + 32 * WordAt(b, 0), WordAt(b, 4));
      assert vs == ArtifactVertices(b) && ixs == ArtifactIndices(b);
      var valid := CheckTriangles(ixs, |vs|);
      assert valid == ValidArtifact(b);
      if !valid {
        return;
      }
      Reload(vs, ixs, gl, ops);
    }

    /** The end of Mesh::Load: the read data replaces the mesh, which is uploaded and recomputed. */
    method Reload(vs: seq<Vertex>, ixs: seq<u32>, gl: Context, ops: FloatOps)
      requires gl.Valid() && ValidTriangles(ixs, |vs|)
      modifies this`vertices, this`indices, this`normals, this`aabb, this`vao, this`vbo, this`ebo,
        gl`live, gl`next, gl`buffers
      ensures gl.Valid()
      ensures vertices == vs && indices == ixs
      ensures normals == NormalsOf(old(normals), vs, ixs, ops) && aabb == AabbOf(vs)
      ensures Uploaded(this, gl)
      ensures vao !in old(gl.live) && vbo !in old(gl.live) && ebo !in old(gl.live)
      ensures gl.live == old(gl.live) + {vao, vbo, ebo}
      ensures gl.buffers == old(gl.buffers)[vbo := Interleave(vs)][ebo := ixs]
    {
      vertices, indices := vs, ixs;
      SetupMesh(gl);
      CalculateNormals(ops);
      CalculateAABB();
    }
  }

  /** The GPU holds the mesh: three distinct live names, the interleaved vertices and the indices in the two buffers. */
  ghost predicate Uploaded(m: Mesh, gl: Context)
    reads m`vao, m`vbo, m`ebo, m`vertices, m`indices, gl`live, gl`buffers
  {
    m.vao != 0 && m.vbo != 0 && m.ebo != 0 && m.vao != m.vbo && m.vao != m.ebo && m.vbo != m.ebo
    && m.vao in gl.live && m.vbo in gl.live && m.ebo in gl.live
    && m.vbo in gl.buffers && gl.buffers[m.vbo] == Interleave(m.vertices)
    && m.ebo in gl.buffers && gl.buffers[m.ebo] == m.indices
  }

  /** The vertex read loop of Mesh::Load: the announced number of vertices, each read in file order. */
  method ReadArtifactVertices(b: seq<byte>) returns (vs: seq<Vertex>)
    ensures vs == ArtifactVertices(b)
  {
    var numVertices := WordAt(b, 0);
    vs := Resized([], numVertices, Vertex(ZeroVec3, ZeroVec3, Vec2(0, 0)));
    var i := 0;
    while i < numVertices
      invariant 0 <= i <= numVertices && |vs| == numVertices
      invariant forall j :: 0 <= j < i ==> vs[j] == ReadVertex(b, j)
    {
      vs := vs[i := ReadVertex(b, i)];
      i := i + 1;
    }
    assert vs == ReadVertices(b, numVertices);
  }

  /** The check the index walk of CalculateNormals needs: whole triangles whose corners exist. */
  method CheckTriangles(indices: seq<u32>, vertexCount: nat) returns (ok: bool)
    ensures ok == ValidTriangles(indices, vertexCount)
  {
    if |indices| % 3 != 0 {
      return false;
    }
    var k := 0;
    while k < |indices|
      invariant 0 <= k <= |indices|
      invariant forall j :: 0 <= j < k ==> indices[j] < vertexCount
    {
      if indices[k] >= vertexCount {
        return false;
      }
      k := k + 1;
    }
    return true;
  }
}
