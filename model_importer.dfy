/**
 * ModelImporter.cpp and ResourceMesh.cpp: turning a decoded scene into the
 * engine's ".vroom" mesh files, the byte layout of those files, and loading
 * one back into GPU buffers for a mesh resource.
 *
 * A ".vroom" file is: vertex count (u32), index count (u32), then eight
 * 32-bit floats per vertex (position, normal, texture coordinate), then the
 * indices (u32), all little-endian.
 */
module ModelImporter {
  import opened Common
  import opened Strings
  import opened FileSystem
  import opened Gl
  import opened Resources

  // ---------------------------------------------------------------------
  // The decoded scene (the importer library's output, an input here)
  // ---------------------------------------------------------------------

  /** One mesh of a decoded scene: positions, optional normals and first UV channel, faces as index lists. */
  datatype AiMesh = AiMesh(
    positions: seq<Vec3>,
    normals: Option<seq<Vec3>>,
    uv0: Option<seq<Vec3>>,
    faces: seq<seq<u32>>)

  /** A decoded scene; `hasRoot` says whether it has a root node. */
  datatype AiScene = AiScene(hasRoot: bool, meshes: seq<AiMesh>)

  /** The counts fit their unsigned fields and per-vertex arrays have one entry per vertex. */
  predicate WellFormedMesh(m: AiMesh)
  {
    |m.positions| < U32_LIMIT && |m.faces| < U32_LIMIT
    && (m.normals.Some? ==> |m.normals.value| == |m.positions|)
    && (m.uv0.Some? ==> |m.uv0.value| == |m.positions|)
  }

  predicate WellFormedScene(s: AiScene)
  {
    |s.meshes| < U32_LIMIT && forall i :: 0 <= i < |s.meshes| ==> WellFormedMesh(s.meshes[i])
  }

  predicate HasNormals(m: AiMesh) { m.normals.Some? && |m.positions| > 0 }

  predicate HasTextureCoords(m: AiMesh) { m.uv0.Some? && |m.positions| > 0 }

  // ---------------------------------------------------------------------
  // Interleaving and the ".vroom" layout
  // ---------------------------------------------------------------------

  /** The interleaved vertex of Mesh.h / ResourceMesh.h. */
  datatype Vertex = Vertex(position: Vec3, normal: Vec3, texCoords: Vec2)

  /** The vertex Import writes for vertex `v`: missing normals and UVs become zeros. */
  function ImportedVertex(m: AiMesh, v: nat): Vertex
    requires WellFormedMesh(m) && v < |m.positions|
  {
    var n := if HasNormals(m) then m.normals.value[v] else ZeroVec3;
    var t := if HasTextureCoords(m) then m.uv0.value[v] else ZeroVec3;
    Vertex(m.positions[v], n, Vec2(t.x, t.y))
  }

  /** The eight floats of a vertex in file order. */
  function VertexWords(v: Vertex): (r: seq<u32>)
    ensures |r| == 8
  {
    [v.position.x, v.position.y, v.position.z,
     v.normal.x, v.normal.y, v.normal.z,
     v.texCoords.x, v.texCoords.y]
  }

  /** The vertex stored in eight floats. */
  function WordsVertex(w: seq<u32>): Vertex
    requires |w| == 8
  {
    Vertex(Vec3(w[0], w[1], w[2]), Vec3(w[3], w[4], w[5]), Vec2(w[6], w[7]))
  }

  /** A block of vertices laid out one after the other. */
  function Interleave(vs: seq<Vertex>): (r: seq<u32>)
    ensures |r| == 8 * |vs|
  {
    if vs == [] then [] else Interleave(vs[..|vs| - 1]) + VertexWords(vs[|vs| - 1])
  }

  /** Grouping a block of floats back into vertices, eight at a time. */
  function Deinterleave(ws: seq<u32>): (r: seq<Vertex>)
    requires |ws| % 8 == 0
    ensures |r| == |ws| / 8
  {
    if ws == [] then [] else Deinterleave(ws[..|ws| - 8]) + [WordsVertex(ws[|ws| - 8..])]
  }

  lemma {:induction false} DeinterleaveInterleave(vs: seq<Vertex>)
    ensures Deinterleave(Interleave(vs)) == vs
    decreases |vs|
  {
    if vs != [] {
      var ws := Interleave(vs);
      assert ws[..|ws| - 8] == Interleave(vs[..|vs| - 1]);
      assert ws[|ws| - 8..] == VertexWords(vs[|vs| - 1]);
      DeinterleaveInterleave(vs[..|vs| - 1]);
    }
  }

  /** The vertices Import writes for the first `k` vertices of a mesh. */
  function ImportedVertices(m: AiMesh, k: nat): (r: seq<Vertex>)
    requires WellFormedMesh(m) && k <= |m.positions|
    ensures |r| == k
    ensures forall v :: 0 <= v < k ==> r[v] == ImportedVertex(m, v)
  {
    if k == 0 then [] else ImportedVertices(m, k - 1) + [ImportedVertex(m, k - 1)]
  }

  /** The indices of the faces that have exactly three corners, in face order. */
  function TriangleIndices(faces: seq<seq<u32>>): (r: seq<u32>)
    ensures |r| % 3 == 0
    ensures |r| <= 3 * |faces|
  {
    if faces == [] then []
    else
      var f := faces[|faces| - 1];
      var front := TriangleIndices(faces[..|faces| - 1]);
      var tail := if |f| == 3 then f else [];
      assert (|front| + |tail|) % 3 == 0 by {
        assert |tail| == 0 || |tail| == 3;
      }
      front + tail
  }

  /** Every index Import keeps comes from a triangle of the mesh; faces of any other size are dropped. */
  lemma {:induction false} TriangleIndicesFromTriangles(faces: seq<seq<u32>>, k: nat)
    requires k < |TriangleIndices(faces)|
    ensures exists f :: 0 <= f < |faces| && |faces[f]| == 3 && TriangleIndices(faces)[k] in faces[f]
    decreases |faces|
  {
    var last := faces[|faces| - 1];
    var front := TriangleIndices(faces[..|faces| - 1]);
    if k < |front| {
      TriangleIndicesFromTriangles(faces[..|faces| - 1], k);
      var f :| 0 <= f < |faces| - 1 && |faces[..|faces| - 1][f]| == 3 && front[k] in faces[..|faces| - 1][f];
      assert faces[f] == faces[..|faces| - 1][f];
    } else {
      assert TriangleIndices(faces)[k] == last[k - |front|];
      assert |faces[|faces| - 1]| == 3;
    }
  }

  /** The content of one mesh file. */
  datatype MeshData = MeshData(vertexCount: u32, indexCount: u32, vertices: seq<u32>, indices: seq<u32>)

  predicate WellSized(d: MeshData)
  {
    |d.vertices| == 8 * d.vertexCount && |d.indices| == d.indexCount
  }

  function EncodeMesh(d: MeshData): (b: seq<byte>)
    requires WellSized(d)
    ensures |b| == 8 + 32 * d.vertexCount + 4 * d.indexCount
  {
    WordBytes(d.vertexCount) + WordBytes(d.indexCount) + WordsBytes(d.vertices) + WordsBytes(d.indices)
  }

  /** Reading a mesh file: the header, then as many floats and indices as it announces. */
  function DecodeMesh(b: seq<byte>): (d: MeshData)
    ensures WellSized(d)
  {
    var nv := WordAt(b, 0);
    var ni := WordAt(b, 4);
    MeshData(nv, ni, WordsAt(b, 8, 8 * nv), WordsAt(b, 8 + 32 * nv, ni))
  }

  /** Loading a written mesh file gives back exactly what was written. */
  lemma MeshRoundTrip(d: MeshData)
    requires WellSized(d)
    ensures DecodeMesh(EncodeMesh(d)) == d
  {
    var b := EncodeMesh(d);
    var hv := WordBytes(d.vertexCount);
    var hi := WordBytes(d.indexCount);
    var bv := WordsBytes(d.vertices);
    var bi := WordsBytes(d.indices);
    assert b == [] + hv + (hi + bv + bi);
    WordRoundTrip(d.vertexCount, [], hi + bv + bi);
    assert b == hv + hi + (bv + bi);
    WordRoundTrip(d.indexCount, hv, bv + bi);
    assert b == (hv + hi) + bv + bi;
    BlockRoundTrip(d.vertices, hv + hi, bi);
    assert |hv + hi + bv| == 8 + 32 * d.vertexCount;
    assert b == (hv + hi + bv) + bi + [];
    BlockRoundTrip(d.indices, hv + hi + bv, []);
  }

  /** What Import writes for one mesh: all vertices, and the triangle indices (their count kept to 32 bits). */
  function MeshDataOf(m: AiMesh): (d: MeshData)
    requires WellFormedMesh(m)
    ensures WellSized(d)
  {
    var tri := TriangleIndices(m.faces);
    var ni := |tri| % U32_LIMIT;
    MeshData(|m.positions|, ni, Interleave(ImportedVertices(m, |m.positions|)), tri[..ni])
  }

  /** Library file name of the i-th mesh of a model file. */
  function MeshLibraryPath(destDir: string, filePath: string, i: nat): string
  {
    destDir + "/" + StemOf(filePath) + "_mesh_" + NatToString(i) + ".vroom"
  }

  /** Different meshes of one import go to different files. */
  lemma MeshLibraryPathsDistinct(destDir: string, filePath: string, i: nat, j: nat)
    requires i != j
    ensures MeshLibraryPath(destDir, filePath, i) != MeshLibraryPath(destDir, filePath, j)
  {
    NatToStringInjective(i, j);
    SameMiddle(destDir + "/" + StemOf(filePath) + "_mesh_", NatToString(i), NatToString(j), ".vroom");
  }

  /** The library file lies directly in the destination directory. */
  lemma MeshLibraryPathParent(destDir: string, filePath: string, i: nat)
    ensures var p := MeshLibraryPath(destDir, filePath, i);
      LastIndexOf(p, '/') == |destDir| && p[..|destDir|] == destDir
  {
    var p := MeshLibraryPath(destDir, filePath, i);
    var digits := NatToString(i);
    var tail := StemOf(filePath) + "_mesh_" + digits + ".vroom";
    StemHasNoSlash(filePath);
    assert '/' !in digits;
    assert '/' !in tail by {
      assert forall j :: 0 <= j < |tail| ==> tail[j] in StemOf(filePath) || tail[j] in "_mesh_" || tail[j] in digits || tail[j] in ".vroom";
    }
    assert p == destDir + ['/'] + tail;
    LastIndexOfBeforeTail(destDir, '/', tail);
  }

  /** The disk after Import has written the first |ms| meshes. */
  function ImportedDisk(disk: Disk, destDir: string, filePath: string, ms: seq<AiMesh>, now: int): Disk
    requires forall i :: 0 <= i < |ms| ==> WellFormedMesh(ms[i])
  {
    if ms == [] then disk
    else
      var i := |ms| - 1;
      WriteIfPossible(ImportedDisk(disk, destDir, filePath, ms[..i], now),
        MeshLibraryPath(destDir, filePath, i), EncodeMesh(MeshDataOf(ms[i])), now)
  }

  /** Whether a stream can be opened on `p` depends only on the entries at `p` and at its directory. */
  lemma CanWriteFileLocal(d1: Disk, d2: Disk, p: string)
    requires p in d1 <==> p in d2
    requires p in d1 ==> d1[p] == d2[p]
    requires var k := LastIndexOf(p, '/'); k >= 0 ==>
      (p[..k] in d1 <==> p[..k] in d2) && (p[..k] in d1 ==> d1[p[..k]] == d2[p[..k]])
    ensures CanWriteFile(d1, p) == CanWriteFile(d2, p)
  {
  }

  /** Import changes no path other than its mesh files. */
  lemma {:induction false} ImportedDiskFrame(disk: Disk, destDir: string, filePath: string, ms: seq<AiMesh>, now: int, p: string)
    requires forall i :: 0 <= i < |ms| ==> WellFormedMesh(ms[i])
    requires forall i :: 0 <= i < |ms| ==> p != MeshLibraryPath(destDir, filePath, i)
    ensures var after := ImportedDisk(disk, destDir, filePath, ms, now);
      (p in after <==> p in disk) && (p in disk ==> after[p] == disk[p])
    decreases |ms|
  {
    if ms != [] {
      ImportedDiskFrame(disk, destDir, filePath, ms[..|ms| - 1], now, p);
    }
  }

  /** One more mesh: its file is written on top of what the earlier meshes left. */
  lemma ImportedDiskStep(disk: Disk, destDir: string, filePath: string, ms: seq<AiMesh>, now: int)
    requires forall j :: 0 <= j < |ms| ==> WellFormedMesh(ms[j])
    requires |ms| > 0
    ensures var n := |ms| - 1;
      ImportedDisk(disk, destDir, filePath, ms, now)
        == WriteIfPossible(ImportedDisk(disk, destDir, filePath, ms[..n], now), MeshLibraryPath(destDir, filePath, n), EncodeMesh(MeshDataOf(ms[n])), now)
  {
  }

  /** The mesh file of mesh `i` holds that mesh whenever its stream could be opened. */
  lemma {:induction false} ImportedDiskContents(disk: Disk, destDir: string, filePath: string, ms: seq<AiMesh>, now: int, i: nat)
    requires forall j :: 0 <= j < |ms| ==> WellFormedMesh(ms[j])
    requires i < |ms| && CanWriteFile(disk, MeshLibraryPath(destDir, filePath, i))
    ensures var after := ImportedDisk(disk, destDir, filePath, ms, now);
      MeshLibraryPath(destDir, filePath, i) in after
      && after[MeshLibraryPath(destDir, filePath, i)] == File(EncodeMesh(MeshDataOf(ms[i])), now)
    decreases |ms|
  {
    var n := |ms| - 1;
    var front := ms[..n];
    var p := MeshLibraryPath(destDir, filePath, i);
    var last := MeshLibraryPath(destDir, filePath, n);
    var before := ImportedDisk(disk, destDir, filePath, front, now);
    var data := EncodeMesh(MeshDataOf(ms[n]));
    ImportedDiskStep(disk, destDir, filePath, ms, now);
    if i < n {
      assert front[i] == ms[i];
      ImportedDiskContents(disk, destDir, filePath, front, now, i);
      MeshLibraryPathsDistinct(destDir, filePath, i, n);
      WriteIfPossibleOther(before, p, last, data, now);
    } else {
      ImportedDiskLast(disk, destDir, filePath, ms, now);
    }
  }

  /** The last mesh's file is written whenever its stream could be opened before Import began. */
  lemma ImportedDiskLast(disk: Disk, destDir: string, filePath: string, ms: seq<AiMesh>, now: int)
    requires forall j :: 0 <= j < |ms| ==> WellFormedMesh(ms[j])
    requires |ms| > 0 && CanWriteFile(disk, MeshLibraryPath(destDir, filePath, |ms| - 1))
    ensures CanWriteFile(ImportedDisk(disk, destDir, filePath, ms[..|ms| - 1], now), MeshLibraryPath(destDir, filePath, |ms| - 1))
  {
    var n := |ms| - 1;
    var front := ms[..n];
    var path := MeshLibraryPath(destDir, filePath, n);
    var before := ImportedDisk(disk, destDir, filePath, front, now);
    forall j | 0 <= j < n
      ensures path != MeshLibraryPath(destDir, filePath, j)
    {
      MeshLibraryPathsDistinct(destDir, filePath, j, n);
    }
    forall j | 0 <= j < n
      ensures destDir != MeshLibraryPath(destDir, filePath, j)
    {
      assert |destDir| < |MeshLibraryPath(destDir, filePath, j)|;
    }
    ImportedDiskFrame(disk, destDir, filePath, front, now, path);
    ImportedDiskFrame(disk, destDir, filePath, front, now, destDir);
    MeshLibraryPathParent(destDir, filePath, n);
    assert path[..LastIndexOf(path, '/')] == destDir;
    CanWriteFileLocal(before, disk, path);
  }

  // ---------------------------------------------------------------------
  // Import and SaveToLibrary
  // ---------------------------------------------------------------------

  /**
   * ModelImporter::SaveToLibrary: the header, `numVerts` vertices and
   * `numIndices` indices, written to `path` when it can be opened.
   */
  method SaveToLibrary(path: string, numVerts: u32, numIndices: u32, vertices: seq<u32>, indices: seq<u32>,
                       fs: FileSystem, now: int)
    requires 8 * numVerts <= |vertices| && numIndices <= |indices|
    modifies fs
    ensures fs.disk == WriteIfPossible(old(fs.disk), path,
      EncodeMesh(MeshData(numVerts, numIndices, vertices[..8 * numVerts], indices[..numIndices])), now)
  {
    var data := MeshData(numVerts, numIndices, vertices[..8 * numVerts], indices[..numIndices]);
    var _ := fs.WriteFile(path, EncodeMesh(data), now);
  }

  /**
   * ModelImporter::Import: false when the scene could not be decoded or has
   * no root node; otherwise every mesh is interleaved, its triangles kept,
   * and written to its own library file.
   */
  method Import(filePath: string, destDir: string, scene: Option<AiScene>, fs: FileSystem, now: int)
    returns (ok: bool)
    requires scene.Some? ==> WellFormedScene(scene.value)
    modifies fs
    ensures ok <==> scene.Some? && scene.value.hasRoot
    ensures !ok ==> fs.disk == old(fs.disk)
    ensures ok ==> fs.disk == ImportedDisk(old(fs.disk), destDir, filePath, scene.value.meshes, now)
  {
    if scene.None? || !scene.value.hasRoot {
      return false;
    }
    var meshes := scene.value.meshes;
    var i := 0;
    while i < |meshes|
      invariant 0 <= i <= |meshes|
      invariant fs.disk == ImportedDisk(old(fs.disk), destDir, filePath, meshes[..i], now)
    {
      ImportMesh(filePath, destDir, meshes[i], i, fs, now);
      assert meshes[..i + 1][..i] == meshes[..i];
      i := i + 1;
    }
    assert meshes[..i] == meshes;
    ok := true;
  }

  /** One pass of Import's mesh loop: mesh `i` interleaved, its triangles collected, and saved to its library file. */
  method ImportMesh(filePath: string, destDir: string, m: AiMesh, i: nat, fs: FileSystem, now: int)
    requires WellFormedMesh(m)
    modifies fs
    ensures fs.disk == WriteIfPossible(old(fs.disk), MeshLibraryPath(destDir, filePath, i), EncodeMesh(MeshDataOf(m)), now)
  {
    var vertices := InterleaveVertices(m);
    var indices := CollectTriangles(m.faces);
    var libPath := MeshLibraryPath(destDir, filePath, i);
    SavedMeshData(m, vertices, indices);
    var numVerts := |vertices| / 8;
    var numIndices := |indices| % U32_LIMIT;
    SaveToLibrary(libPath, numVerts, numIndices, vertices, indices, fs, now);
  }

  /** The counts and arrays ImportMesh hands to SaveToLibrary are those of MeshDataOf. */
  lemma SavedMeshData(m: AiMesh, vertices: seq<u32>, indices: seq<u32>)
    requires WellFormedMesh(m)
    requires vertices == Interleave(ImportedVertices(m, |m.positions|)) && indices == TriangleIndices(m.faces)
    ensures |vertices| / 8 == |m.positions| && 8 * (|vertices| / 8) <= |vertices|
    ensures var nv := |vertices| / 8; var ni := |indices| % U32_LIMIT;
      ni <= |indices| && MeshData(nv, ni, vertices[..8 * nv], indices[..ni]) == MeshDataOf(m)
  {
    assert vertices[..8 * |m.positions|] == vertices;
  }

  /** The vertex loop of Import: eight floats per vertex, zeros standing in for missing normals and UVs. */
  method InterleaveVertices(m: AiMesh) returns (vertices: seq<u32>)
    requires WellFormedMesh(m)
    ensures |vertices| == 8 * |m.positions|
    ensures vertices == Interleave(ImportedVertices(m, |m.positions|))
  {
    vertices := [];
    var v := 0;
    while v < |m.positions|
      invariant 0 <= v <= |m.positions|
      invariant vertices == Interleave(ImportedVertices(m, v))
    {
      var floats := VertexFloats(m, v);
      InterleaveStep(m, v);
      vertices := vertices + floats;
      v := v + 1;
    }
  }

  /** The eight floats Import pushes for vertex `v`. */
  method VertexFloats(m: AiMesh, v: nat) returns (floats: seq<u32>)
    requires WellFormedMesh(m) && v < |m.positions|
    ensures floats == VertexWords(ImportedVertex(m, v))
  {
    ghost var iv := ImportedVertex(m, v);
    var position := [m.positions[v].x, m.positions[v].y, m.positions[v].z];
    var normal: seq<u32>;
    if HasNormals(m) {
      var n := m.normals.value[v];
      normal := [n.x, n.y, n.z];
    } else {
      normal := [0, 0, 0];
    }
    assert normal == [iv.normal.x, iv.normal.y, iv.normal.z];
    var uv: seq<u32>;
    if HasTextureCoords(m) {
      var t := m.uv0.value[v];
      uv := [t.x, t.y];
    } else {
      uv := [0, 0];
    }
    assert uv == [iv.texCoords.x, iv.texCoords.y];
    VertexWordsParts(iv, position, normal, uv);
    floats := position + normal + uv;
  }

  lemma VertexWordsParts(x: Vertex, position: seq<u32>, normal: seq<u32>, uv: seq<u32>)
    requires position == [x.position.x, x.position.y, x.position.z]
    requires normal == [x.normal.x, x.normal.y, x.normal.z]
    requires uv == [x.texCoords.x, x.texCoords.y]
    ensures position + normal + uv == VertexWords(x)
  {
  }

  lemma InterleaveStep(m: AiMesh, v: nat)
    requires WellFormedMesh(m) && v < |m.positions|
    ensures Interleave(ImportedVertices(m, v + 1)) == Interleave(ImportedVertices(m, v)) + VertexWords(ImportedVertex(m, v))
  {
    var vs := ImportedVertices(m, v + 1);
    assert vs[..v] == ImportedVertices(m, v);
  }

  /** Float k of vertex v sits at position 8v + k. */
  lemma {:induction false} InterleaveAt(vs: seq<Vertex>)
    ensures forall v, k :: 0 <= v < |vs| && 0 <= k < 8 ==> Interleave(vs)[8 * v + k] == VertexWords(vs[v])[k]
    decreases |vs|
  {
    if vs != [] {
      InterleaveAt(vs[..|vs| - 1]);
    }
  }

  /** The face loop of Import: the three indices of each triangle, in face order. */
  method CollectTriangles(faces: seq<seq<u32>>) returns (indices: seq<u32>)
    ensures indices == TriangleIndices(faces)
    ensures |indices| % 3 == 0
  {
    indices := [];
    var f := 0;
    while f < |faces|
      invariant 0 <= f <= |faces|
      invariant indices == TriangleIndices(faces[..f])
    {
      assert faces[..f + 1][..f] == faces[..f];
      var face := faces[f];
      if |face| == 3 {
        indices := indices + [face[0], face[1], face[2]];
        assert [face[0], face[1], face[2]] == face;
      }
      f := f + 1;
    }
    assert faces[..f] == faces;
  }

  // ---------------------------------------------------------------------
  // Loading a mesh resource
  // ---------------------------------------------------------------------

  /** A mesh resource: GPU names of its vertex array and two buffers, and its counts (ResourceMesh.h). */
  class ResourceMesh {
    const base: Resource
    var vao: Handle
    var vbo: Handle
    var ebo: Handle
    var indexCount: u32
    var vertexCount: u32

    /** ResourceMesh(uid): no GPU objects yet, counts zero, not loaded. */
    constructor(uid: u32)
      ensures fresh(base) && base.uid == uid && base.kind == MeshResource
      ensures base.libraryPath == "" && !base.loaded
      ensures vao == 0 && vbo == 0 && ebo == 0 && indexCount == 0 && vertexCount == 0
    {
      base := new Resource.WithUid(uid, MeshResource);
      vao, vbo, ebo := 0, 0, 0;
      indexCount, vertexCount := 0, 0;
    }

    /** ResourceMesh::LoadInMemory: nothing when already loaded; otherwise loaded exactly when ModelImporter::Load succeeds. */
    method LoadInMemory(fs: FileSystem, gl: Context)
      requires gl.Valid()
      modifies this, base`loaded, gl
      ensures gl.Valid()
      ensures old(base.loaded) ==> unchanged(this, base, gl)
      ensures !old(base.loaded) ==> base.loaded == LibraryFileReadable(base.libraryPath, fs.disk)
      ensures !old(base.loaded) ==> LoadEffect(this, gl, fs.disk)
    {
      if base.loaded {
        return;
      }
      var ok := Load(this, fs, gl);
      if ok {
        base.loaded := true;
      }
    }

    /** ResourceMesh::FreeMemory: when loaded, its GPU objects are deleted, names and counts reset, and it is no longer loaded. */
    method FreeMemory(gl: Context)
      requires gl.Valid()
      modifies this, base`loaded, gl`live, gl`buffers, gl`textures
      ensures gl.Valid()
      ensures !old(base.loaded) ==> unchanged(this, base, gl)
      ensures old(base.loaded) ==>
        !base.loaded && vao == 0 && vbo == 0 && ebo == 0 && indexCount == 0 && vertexCount == 0
        && gl.live == old(gl.live) - Names(old(vao), old(vbo), old(ebo))
        && gl.buffers == old(gl.buffers) - Names(old(vao), old(vbo), old(ebo))
        && gl.textures == old(gl.textures) - Names(old(vao), old(vbo), old(ebo))
    {
      if !base.loaded {
        return;
      }
      DeleteIfNamed(vao, gl);
      DeleteIfNamed(vbo, gl);
      DeleteIfNamed(ebo, gl);
      MinusNames(old(gl.live), old(gl.buffers), old(gl.textures), vao, vbo, ebo);
      vao, vbo, ebo := 0, 0, 0;
      indexCount, vertexCount := 0, 0;
      base.loaded := false;
    }

    /** ResourceMesh::BindAndDraw: one draw of indexCount indices from its vertex array, only when loaded. */
    method BindAndDraw(gl: Context)
      modifies gl`calls
      ensures gl.calls == old(gl.calls) + (if base.loaded then [DrawElements(vao, indexCount)] else [])
    {
      if !base.loaded {
        return;
      }
      gl.Draw(vao, indexCount);
    }
  }

  /** The nonzero names among three. */
  function Names(a: Handle, b: Handle, c: Handle): (r: set<Handle>)
    ensures 0 !in r && forall h :: h in r <==> h != 0 && (h == a || h == b || h == c)
  {
    {a, b, c} - {0}
  }

  /** `if (name) glDelete*(1, &name)`. */
  method DeleteIfNamed(h: Handle, gl: Context)
    requires gl.Valid()
    modifies gl`live, gl`buffers, gl`textures
    ensures gl.Valid()
    ensures gl.live == old(gl.live) - ({h} - {0})
    ensures gl.buffers == old(gl.buffers) - ({h} - {0}) && gl.textures == old(gl.textures) - ({h} - {0})
  {
    if h != 0 {
      gl.Delete(h);
    } else {
      assert {h} - {0} == {};
      assert gl.buffers == old(gl.buffers) - {};
      assert gl.textures == old(gl.textures) - {};
    }
  }

  /** Deleting three names one after the other removes all of them. */
  lemma MinusNames<V, W>(live: set<Handle>, buffers: map<Handle, V>, textures: map<Handle, W>, a: Handle, b: Handle, c: Handle)
    requires 0 !in live
    ensures live - ({a} - {0}) - ({b} - {0}) - ({c} - {0}) == live - Names(a, b, c)
    ensures buffers - ({a} - {0}) - ({b} - {0}) - ({c} - {0}) == buffers - Names(a, b, c)
    ensures textures - ({a} - {0}) - ({b} - {0}) - ({c} - {0}) == textures - Names(a, b, c)
  {
  }

  /**
   * The state ModelImporter::Load leaves in a resource and the context: on
   * failure the resource and the context's names and contents are as
   * before; on success each missing name is generated (the new ones
   * distinct), the floats go to the vertex buffer and the indices to the
   * element buffer, and the index count is the file's.
   */
  twostate predicate LoadState(r: ResourceMesh, gl: Context, disk: Disk)
    reads r, r.base, gl
  {
    if !LibraryFileReadable(r.base.libraryPath, disk) then
      unchanged(r) && gl.live == old(gl.live) && gl.buffers == old(gl.buffers) && gl.textures == old(gl.textures)
    else
      var d := DecodeMesh(disk[r.base.libraryPath].data);
      NameAfterGen(old(r.vao), r.vao, old(gl.live))
      && NameAfterGen(old(r.vbo), r.vbo, old(gl.live))
      && NameAfterGen(old(r.ebo), r.ebo, old(gl.live))
      && (old(r.vao) == 0 && old(r.vbo) == 0 ==> r.vao != r.vbo)
      && (old(r.vao) == 0 && old(r.ebo) == 0 ==> r.vao != r.ebo)
      && (old(r.vbo) == 0 && old(r.ebo) == 0 ==> r.vbo != r.ebo)
      && gl.live == old(gl.live) + Generated(old(r.vao), r.vao) + Generated(old(r.vbo), r.vbo)
           + Generated(old(r.ebo), r.ebo)
      && gl.buffers == old(gl.buffers)[r.vbo := d.vertices][r.ebo := d.indices]
      && gl.textures == old(gl.textures)
      && r.indexCount == d.indexCount && r.vertexCount == old(r.vertexCount)
  }

  /** The effect of ModelImporter::Load: its state, with no draw or bind recorded and, on failure, the context untouched. */
  twostate predicate LoadEffect(r: ResourceMesh, gl: Context, disk: Disk)
    reads r, r.base, gl
  {
    LoadState(r, gl, disk)
    && if !LibraryFileReadable(r.base.libraryPath, disk) then unchanged(gl) else gl.calls == old(gl.calls)
  }

  /**
   * The float count ModelImporter::Load allocates for a file announcing
   * `numVerts` vertices: the product `numVerts * 8` is taken in 32-bit
   * unsigned arithmetic.
   */
  function AllocatedFloats(numVerts: u32): (r: nat)
    ensures r < U32_LIMIT && r % 8 == 0
  {
    (numVerts * 8) % U32_LIMIT
  }

  /** The float count the read that follows stores: `sizeof(float) * numVerts * 8` bytes, a 64-bit product. */
  function ReadFloats(numVerts: u32): nat
  {
    8 * numVerts
  }

  /** The allocation holds what is read exactly when the announced count is below 2^29. */
  lemma AllocationMatchesReadBelowWrap(numVerts: u32)
    ensures AllocatedFloats(numVerts) == ReadFloats(numVerts) <==> numVerts < 0x2000_0000
    ensures AllocatedFloats(numVerts) <= ReadFloats(numVerts)
  {
  }

  /** A file announcing 2^29 vertices gets an empty allocation and a read of 2^32 floats into it. */
  lemma AllocationWrapsToEmpty()
    ensures AllocatedFloats(0x2000_0000) == 0 && ReadFloats(0x2000_0000) == U32_LIMIT
  {
  }

  /** ModelImporter::Load: upload a mesh file into the resource's GPU objects. */
  method Load(r: ResourceMesh, fs: FileSystem, gl: Context) returns (ok: bool)
    requires gl.Valid()
    modifies r, gl
    ensures gl.Valid()
    ensures ok == LibraryFileReadable(r.base.libraryPath, fs.disk)
    ensures LoadEffect(r, gl, fs.disk)
  {
    var path := r.base.libraryPath;
    if path == "" {
      return false;
    }
    var contents := fs.ReadFile(path);
    if contents.None? {
      return false;
    }
    var d := DecodeMesh(contents.value);
    r.vao := GenIfUnnamed(r.vao, gl);
    r.vbo := GenIfUnnamed(r.vbo, gl);
    r.ebo := GenIfUnnamed(r.ebo, gl);
    gl.BufferData(r.vbo, d.vertices);
    gl.BufferData(r.ebo, d.indices);
    r.indexCount := d.indexCount;
    ok := true;
  }
}
