/**
 * Model.cpp: a model's scene objects and what it does with them — the
 * split of its file path, the flattening of face indices, marking objects
 * for destruction and dropping them, creating empty objects, and the cache
 * of textures keyed by path.
 *
 * The texture list the cache searches belongs to the application's texture
 * module; it is passed in as that module's Texture object. Copies of a
 * Texture (the source returns them by value) are modelled as shared
 * references.
 */
module Models {
  import opened Common
  import opened Strings
  import opened FileSystem
  import opened Gl
  import opened TextureImporter
  import opened Textures
  import opened SceneGraph
  import opened ModelImporter

  // ---------------------------------------------------------------------
  // The path split in Model::loadModel
  // ---------------------------------------------------------------------

  /** std::string::npos */
  const NPOS: int := U64_LIMIT - 1

  /** A find_last_of result as a size_t: not found is npos. */
  function SizeT(k: int): nat
    requires -1 <= k < NPOS
  {
    if k < 0 then NPOS else k
  }

  /** size_t addition, which wraps at 2^64. */
  function SizeTAdd(a: nat, b: nat): nat
    requires a < U64_LIMIT && b < U64_LIMIT
  {
    if a + b < U64_LIMIT then a + b else a + b - U64_LIMIT
  }

  /** size_t subtraction, which wraps below 0. */
  function SizeTSub(a: nat, b: nat): nat
    requires a < U64_LIMIT && b < U64_LIMIT
  {
    if a >= b then a - b else a - b + U64_LIMIT
  }

  /** std::string::substr(pos, count): the characters from `pos`, at most `count` of them. */
  function Substr(s: string, pos: nat, count: nat): (r: string)
    requires pos <= |s|
    ensures pos + |r| <= |s| && r == s[pos..pos + |r|]
    ensures |r| == count || (count > |s| - pos && pos + |r| == |s|)
  {
    if count < |s| - pos then s[pos..pos + count] else s[pos..]
  }

  datatype ModelPath = ModelPath(fullPath: string, fileExtension: string, directory: string, fileName: string)

  /**
   * The four strings loadModel derives from its path: the path with '/'
   * for '\\', the text after its last '.', the text before its last '/',
   * and the text between the two. Every position is a size_t: a missing
   * character is npos, `npos + 1` wraps to 0, and a negative length wraps
   * to a huge one.
   */
  function SplitModelPath(path: string): ModelPath
    requires |path| < NPOS
  {
    var full := NormalizePath(path);
    SplitAt(full, LastIndexOf(full, '.'), LastIndexOf(full, '/'))
  }

  /** The split of `full` given the positions of its last '.' and last '/' (-1 for none). */
  function SplitAt(full: string, d: int, s: int): (p: ModelPath)
    requires |full| < NPOS && -1 <= d < |full| && -1 <= s < |full|
    ensures p.fullPath == full
  {
    var dot := SizeT(d);
    var slash := SizeT(s);
    var start := SizeTAdd(slash, 1);
    ModelPath(full,
      Substr(full, SizeTAdd(dot, 1), NPOS),
      Substr(full, 0, slash),
      Substr(full, start, SizeTSub(dot, start)))
  }

  /**
   * The split without size_t arithmetic: the extension follows the last
   * '.' (the whole path when there is none), the directory precedes the
   * last '/' (the whole path when there is none), and the name starts
   * after the last '/' and stops at the last '.' only when that '.' comes
   * later.
   */
  lemma SplitAtFields(full: string, d: int, s: int)
    requires |full| < NPOS && -1 <= d < |full| && -1 <= s < |full|
    ensures var p := SplitAt(full, d, s);
      p.fileExtension == full[d + 1..]
      && p.directory == (if s < 0 then full else full[..s])
      && p.fileName == (if s < d then full[s + 1..d] else full[s + 1..])
  {
    var dot := SizeT(d);
    var slash := SizeT(s);
    var start := SizeTAdd(slash, 1);
    var count := SizeTSub(dot, start);
    assert SizeTAdd(dot, 1) == d + 1 && start == s + 1;
    if s < d {
      assert count == d - s - 1;
    }
  }

  lemma SplitModelPathFields(path: string)
    requires |path| < NPOS
    ensures var full := NormalizePath(path);
      var d := LastIndexOf(full, '.');
      var s := LastIndexOf(full, '/');
      var p := SplitModelPath(path);
      p.fullPath == full
      && p.fileExtension == full[d + 1..]
      && p.directory == (if s < 0 then full else full[..s])
      && p.fileName == (if s < d then full[s + 1..d] else full[s + 1..])
  {
    var full := NormalizePath(path);
    var d := LastIndexOf(full, '.');
    var p := SplitModelPath(path);
    SplitAtLast(full, d, LastIndexOf(full, '/'), p);
    assert p.fileExtension == full[d + 1..];
  }

  /** SplitAtFields at the last '.' and the last '/' of `full`. */
  lemma SplitAtLast(full: string, d: int, s: int, p: ModelPath)
    requires |full| < NPOS && d == LastIndexOf(full, '.') && s == LastIndexOf(full, '/')
    requires p == SplitAt(full, d, s)
    ensures p.fullPath == full
      && p.fileExtension == full[d + 1..]
      && p.directory == (if s < 0 then full else full[..s])
      && p.fileName == (if s < d then full[s + 1..d] else full[s + 1..])
  {
    SplitAtFields(full, d, s);
  }

  /**
   * With a '/' and a later '.', the path is the directory, '/', the file
   * name, '.', the extension; the name holds no '/' and the extension
   * neither '/' nor '.'.
   */
  lemma SplitModelPathParts(path: string)
    requires |path| < NPOS
    requires var full := NormalizePath(path);
      0 <= LastIndexOf(full, '/') < LastIndexOf(full, '.')
    ensures var p := SplitModelPath(path);
      p.directory + "/" + p.fileName + "." + p.fileExtension == p.fullPath
      && '/' !in p.fileName && '/' !in p.fileExtension && '.' !in p.fileExtension
  {
    var full := NormalizePath(path);
    var d := LastIndexOf(full, '.');
    var s := LastIndexOf(full, '/');
    SplitAtParts(full, d, s);
  }

  lemma SplitAtParts(full: string, d: int, s: int)
    requires |full| < NPOS && 0 <= s < d < |full| && full[s] == '/' && full[d] == '.'
    requires forall j :: s < j < |full| ==> full[j] != '/'
    requires forall j :: d < j < |full| ==> full[j] != '.'
    ensures var p := SplitAt(full, d, s);
      p.directory + "/" + p.fileName + "." + p.fileExtension == p.fullPath
      && '/' !in p.fileName && '/' !in p.fileExtension && '.' !in p.fileExtension
  {
    SplitAtFields(full, d, s);
    var p := SplitAt(full, d, s);
    var dir, name, ext := full[..s], full[s + 1..d], full[d + 1..];
    assert p.directory == dir && p.fileName == name && p.fileExtension == ext && p.fullPath == full;
    assert full == dir + [full[s]] + name + [full[d]] + ext;
    assert forall j :: 0 <= j < |name| ==> name[j] == full[s + 1 + j];
    assert forall j :: 0 <= j < |ext| ==> ext[j] == full[d + 1 + j];
  }

  /** Without a '/', the directory is the whole path (substr(0, npos)) and the name starts at the front. */
  lemma SplitModelPathNoSlash(path: string)
    requires |path| < NPOS
    requires '/' !in NormalizePath(path)
    ensures var p := SplitModelPath(path);
      var d := LastIndexOf(p.fullPath, '.');
      p.directory == p.fullPath && (d >= 0 ==> p.fileName == p.fullPath[..d])
  {
    SplitModelPathFields(path);
  }

  /** Without a '.', the extension is the whole path (npos + 1 is 0) and the name is the last component. */
  lemma SplitModelPathNoDot(path: string)
    requires |path| < NPOS
    requires '.' !in NormalizePath(path)
    ensures var p := SplitModelPath(path);
      p.fileExtension == p.fullPath && p.fileName == FileNameOf(p.fullPath)
  {
    SplitModelPathFields(path);
  }

  /**
   * A '.' only before the last '/' (as in "../Assets/box"): the extension
   * runs across the '/', and the length of the name wraps round, so the
   * name is the whole last component.
   */
  lemma SplitModelPathDotInDirectory(path: string)
    requires |path| < NPOS
    requires var full := NormalizePath(path);
      0 <= LastIndexOf(full, '.') < LastIndexOf(full, '/')
    ensures var p := SplitModelPath(path);
      '/' in p.fileExtension && p.fileName == FileNameOf(p.fullPath)
  {
    var full := NormalizePath(path);
    var d := LastIndexOf(full, '.');
    var s := LastIndexOf(full, '/');
    assert SplitModelPath(path) == SplitAt(full, d, s);
    SplitAtFields(full, d, s);
    assert full[d + 1..][s - d - 1] == full[s];
  }

  // ---------------------------------------------------------------------
  // Index flattening in Model::createComponentsForMesh
  // ---------------------------------------------------------------------

  /** Every face's indices in order, face after face. */
  function Flatten(faces: seq<seq<u32>>): (r: seq<u32>)
    ensures |faces| > 0 ==> |r| >= |faces[|faces| - 1]|
  {
    if faces == [] then [] else Flatten(faces[..|faces| - 1]) + faces[|faces| - 1]
  }

  /** The two loops over the faces and over each face's indices. */
  method FlattenIndices(faces: seq<seq<u32>>) returns (indices: seq<u32>)
    ensures indices == Flatten(faces)
  {
    indices := [];
    var i := 0;
    while i < |faces|
      invariant 0 <= i <= |faces| && indices == Flatten(faces[..i])
    {
      var j := 0;
      while j < |faces[i]|
        invariant 0 <= j <= |faces[i]| && indices == Flatten(faces[..i]) + faces[i][..j]
      {
        indices := indices + [faces[i][j]];
        assert faces[i][..j + 1] == faces[i][..j] + [faces[i][j]];
        j := j + 1;
      }
      assert faces[..i + 1][..i] == faces[..i];
      assert faces[i][..j] == faces[i];
      i := i + 1;
    }
    assert faces[..i] == faces;
  }

  /**
   * On triangulated faces the flattened list is the one the importer
   * writes to the library, and it holds three indices per face.
   */
  lemma {:induction false} FlattenTriangles(faces: seq<seq<u32>>)
    requires forall f :: f in faces ==> |f| == 3
    ensures Flatten(faces) == TriangleIndices(faces) && |Flatten(faces)| == 3 * |faces|
    decreases |faces|
  {
    if faces != [] {
      var front := faces[..|faces| - 1];
      assert forall f :: f in front ==> f in faces;
      FlattenTriangles(front);
      var f := faces[|faces| - 1];
      assert f == [f[0], f[1], f[2]];
    }
  }

  // ---------------------------------------------------------------------
  // Marking for destruction
  // ---------------------------------------------------------------------

  /** The objects of the snapshot that are marked for destruction. */
  ghost function MarkedIn(g: Shape): set<GameObject>
    reads g.kids.Keys`markedForDestroy
  {
    set m | m in g.kids && m.markedForDestroy
  }

  /**
   * What destroying `n` reaches: `n`, and below it every child that was
   * not marked already, with that child's own reach.
   */
  ghost function Cascade(n: GameObject, g: Shape, was: set<GameObject>): set<GameObject>
    requires WellRanked(g) && n in g.kids
    decreases g.rank[n], 1, 0
  {
    {n} + CascadeForest(g.kids[n], g, g.rank[n], was)
  }

  ghost function CascadeForest(cs: seq<GameObject>, g: Shape, bound: nat, was: set<GameObject>): set<GameObject>
    requires WellRanked(g) && forall c :: c in cs ==> c in g.kids && g.rank[c] < bound
    decreases bound, 0, |cs|
  {
    if cs == [] then {}
    else
      var last := cs[|cs| - 1];
      CascadeForest(cs[..|cs| - 1], g, bound, was) + (if last in was then {} else Cascade(last, g, was))
  }

  /** A cascade stays inside the subtree it starts from. */
  lemma {:induction false} CascadeInSubtree(n: GameObject, g: Shape, was: set<GameObject>)
    requires WellRanked(g) && n in g.kids
    ensures Cascade(n, g, was) <= Subtree(n, g)
    decreases g.rank[n], 1, 0
  {
    CascadeForestInForest(g.kids[n], g, g.rank[n], was);
  }

  lemma {:induction false} CascadeForestInForest(cs: seq<GameObject>, g: Shape, bound: nat, was: set<GameObject>)
    requires WellRanked(g) && forall c :: c in cs ==> c in g.kids && g.rank[c] < bound
    ensures CascadeForest(cs, g, bound, was) <= Forest(cs, g, bound)
    decreases bound, 0, |cs|
  {
    if cs != [] {
      CascadeForestInForest(cs[..|cs| - 1], g, bound, was);
      CascadeInSubtree(cs[|cs| - 1], g, was);
    }
  }

  /** Skipping below more objects reaches fewer. */
  lemma {:induction false} CascadeShrinks(n: GameObject, g: Shape, was: set<GameObject>, more: set<GameObject>)
    requires WellRanked(g) && n in g.kids && was <= more
    ensures Cascade(n, g, more) <= Cascade(n, g, was)
    decreases g.rank[n], 1, 0
  {
    CascadeForestShrinks(g.kids[n], g, g.rank[n], was, more);
  }

  lemma {:induction false} CascadeForestShrinks(cs: seq<GameObject>, g: Shape, bound: nat, was: set<GameObject>, more: set<GameObject>)
    requires WellRanked(g) && forall c :: c in cs ==> c in g.kids && g.rank[c] < bound
    requires was <= more
    ensures CascadeForest(cs, g, bound, more) <= CascadeForest(cs, g, bound, was)
    decreases bound, 0, |cs|
  {
    if cs != [] {
      CascadeForestShrinks(cs[..|cs| - 1], g, bound, was, more);
      CascadeShrinks(cs[|cs| - 1], g, was, more);
    }
  }

  /** Whatever a cascade reaches, it reaches everything that object's own cascade does. */
  lemma {:induction false} CascadeClosed(n: GameObject, g: Shape, was: set<GameObject>, x: GameObject)
    requires WellRanked(g) && n in g.kids && x in g.kids && x in Cascade(n, g, was)
    ensures Cascade(x, g, was) <= Cascade(n, g, was)
    decreases g.rank[n], 1, 0
  {
    if x != n {
      CascadeForestClosed(g.kids[n], g, g.rank[n], was, x);
    }
  }

  lemma {:induction false} CascadeForestClosed(cs: seq<GameObject>, g: Shape, bound: nat, was: set<GameObject>, x: GameObject)
    requires WellRanked(g) && forall c :: c in cs ==> c in g.kids && g.rank[c] < bound
    requires x in g.kids && x in CascadeForest(cs, g, bound, was)
    ensures Cascade(x, g, was) <= CascadeForest(cs, g, bound, was)
    decreases bound, 0, |cs|
  {
    var front, last := cs[..|cs| - 1], cs[|cs| - 1];
    if x in CascadeForest(front, g, bound, was) {
      CascadeForestClosed(front, g, bound, was, x);
    } else {
      CascadeClosed(last, g, was, x);
    }
  }

  /**
   * Skipping below the objects of `more` as well loses from a cascade only
   * what `more` already covers, when `more` holds the cascade of each of
   * its objects that `was` does not.
   */
  lemma {:induction false} CascadeGrows(n: GameObject, g: Shape, was: set<GameObject>, more: set<GameObject>)
    requires WellRanked(g) && n in g.kids && was <= more
    requires forall z :: z in g.kids && z in more && z !in was ==> Cascade(z, g, was) <= more
    ensures Cascade(n, g, was) <= more + Cascade(n, g, more)
    decreases g.rank[n], 1, 0
  {
    CascadeForestGrows(g.kids[n], g, g.rank[n], was, more);
  }

  lemma {:induction false} CascadeForestGrows(cs: seq<GameObject>, g: Shape, bound: nat, was: set<GameObject>, more: set<GameObject>)
    requires WellRanked(g) && forall c :: c in cs ==> c in g.kids && g.rank[c] < bound
    requires was <= more
    requires forall z :: z in g.kids && z in more && z !in was ==> Cascade(z, g, was) <= more
    ensures CascadeForest(cs, g, bound, was) <= more + CascadeForest(cs, g, bound, more)
    decreases bound, 0, |cs|
  {
    if cs != [] {
      var last := cs[|cs| - 1];
      CascadeForestGrows(cs[..|cs| - 1], g, bound, was, more);
      if last !in more {
        CascadeGrows(last, g, was, more);
      }
    }
  }

  /** Skipping below an object outside a forest changes nothing in it. */
  lemma {:induction false} CascadeForestSkipOutside(cs: seq<GameObject>, g: Shape, bound: nat, was: set<GameObject>, x: GameObject)
    requires WellRanked(g) && forall c :: c in cs ==> c in g.kids && g.rank[c] < bound
    requires x !in Forest(cs, g, bound)
    ensures CascadeForest(cs, g, bound, was + {x}) == CascadeForest(cs, g, bound, was)
    decreases bound, 0, |cs|
  {
    if cs != [] {
      var last := cs[|cs| - 1];
      CascadeForestSkipOutside(cs[..|cs| - 1], g, bound, was, x);
      assert last in Subtree(last, g);
      CascadeForestSkipOutside(g.kids[last], g, g.rank[last], was, x);
    }
  }

  /** The walk over the first i + 1 children adds child i's cascade, unless it was skipped. */
  lemma CascadeForestStep(cs: seq<GameObject>, g: Shape, bound: nat, was: set<GameObject>, i: nat)
    requires WellRanked(g) && forall c :: c in cs ==> c in g.kids && g.rank[c] < bound
    requires i < |cs|
    ensures CascadeForest(cs[..i + 1], g, bound, was)
      == CascadeForest(cs[..i], g, bound, was) + (if cs[i] in was then {} else Cascade(cs[i], g, was))
  {
    assert cs[..i + 1][..i] == cs[..i];
  }

  /**
   * One pass of the children loop, in terms of marks: walking child i from
   * the marks the loop has reached adds what walking it from the first
   * marks would.
   */
  lemma {:induction false} MarkStep(cs: seq<GameObject>, g: Shape, bound: nat, start: set<GameObject>, i: nat)
    requires WellRanked(g) && forall c :: c in cs ==> c in g.kids && g.rank[c] < bound
    requires i < |cs|
    ensures var now := start + CascadeForest(cs[..i], g, bound, start);
      now + (if cs[i] in now then {} else Cascade(cs[i], g, now)) == start + CascadeForest(cs[..i + 1], g, bound, start)
  {
    var c := cs[i];
    var front := CascadeForest(cs[..i], g, bound, start);
    var now := start + front;
    CascadeForestStep(cs, g, bound, start, i);
    if c !in start && c in now {
      CascadeForestClosed(cs[..i], g, bound, start, c);
    } else if c !in now {
      CascadeShrinks(c, g, start, now);
      forall z | z in g.kids && z in now && z !in start
        ensures Cascade(z, g, start) <= now
      {
        CascadeForestClosed(cs[..i], g, bound, start, z);
      }
      CascadeGrows(c, g, start, now);
    }
  }

  /**
   * The recursive lambda in Model::DestroyGameObject: each child not yet
   * marked is marked and its own children visited; a marked child is
   * skipped with everything below it. The marks it adds are exactly the
   * cascade below `n` from the marks it started with.
   */
  method MarkChildren(n: GameObject, ghost g: Shape)
    requires WellRanked(g) && Mirrors(g) && n in g.kids
    modifies Forest(g.kids[n], g, g.rank[n])`markedForDestroy
    ensures MarkedIn(g) == old(MarkedIn(g)) + CascadeForest(g.kids[n], g, g.rank[n], old(MarkedIn(g)))
    decreases g.rank[n], 1
  {
    ghost var start := MarkedIn(g);
    var children := n.children;
    assert forall c :: c in children ==> c in g.kids && g.rank[c] < g.rank[n];
    var i := 0;
    while i < |children|
      invariant 0 <= i <= |children|
      invariant MarkedIn(g) == start + CascadeForest(children[..i], g, g.rank[n], start)
    {
      ForestContains(children, g, g.rank[n], i);
      MarkStep(children, g, g.rank[n], start, i);
      MarkChild(n, i, g);
      i := i + 1;
    }
    assert children[..i] == children;
  }

  /** One pass of the loop in MarkChildren: child i, when not marked yet, is marked and walked. */
  method MarkChild(n: GameObject, i: nat, ghost g: Shape)
    requires WellRanked(g) && Mirrors(g) && n in g.kids && i < |g.kids[n]|
    modifies Subtree(g.kids[n][i], g)`markedForDestroy
    ensures var c := g.kids[n][i];
      MarkedIn(g) == old(MarkedIn(g)) + (if c in old(MarkedIn(g)) then {} else Cascade(c, g, old(MarkedIn(g))))
    decreases g.rank[n], 0
  {
    var child := n.children[i];
    ghost var before := MarkedIn(g);
    ghost var c := g.kids[n][i];
    ForestStep(n, i, g);
    ForestBelow(g.kids[c], g, g.rank[c]);
    CascadeForestSkipOutside(g.kids[c], g, g.rank[c], before, c);
    if !child.markedForDestroy {
      child.MarkForDestroy();
      assert MarkedIn(g) == before + {child};
      MarkChildren(child, g);
    }
  }

  // ---------------------------------------------------------------------
  // The model
  // ---------------------------------------------------------------------

  /** The objects in `s` that are marked for destruction. */
  function MarkedObjects(s: seq<GameObject?>): set<GameObject?>
    reads s
  {
    set x | x in s && x != null && x.markedForDestroy
  }

  /** The test std::remove_if inverts: keep what is not in `d`. */
  function Outside<T(==)>(d: set<T>): T -> bool
  {
    (x: T) => x !in d
  }

  /**
   * CleanUpDestroyedObjects' result keeps exactly the null entries and the
   * objects not marked, in their order.
   */
  lemma SurvivorsExactly(s: seq<GameObject?>)
    ensures var r := Filter(s, Outside(MarkedObjects(s)));
      (forall x :: x in r <==> x in s && (x == null || !x.markedForDestroy))
      && Subsequence(r, s)
  {
    var keep := Outside(MarkedObjects(s));
    FilterMembers(s, keep);
    FilterIsSubsequence(s, keep);
  }

  /** A path that no two textures of a list share. */
  predicate UniquePaths(ts: seq<Texture>)
    reads ts
  {
    forall i, j :: 0 <= i < j < |ts| ==> ts[i].path != ts[j].path
  }

  /** Position of the first texture whose path is `key`, or -1. */
  function PathIndex(ts: seq<Texture>, key: string): (k: int)
    reads ts
    ensures -1 <= k < |ts|
    ensures k == -1 <==> forall i :: 0 <= i < |ts| ==> ts[i].path != key
    ensures k >= 0 ==> ts[k].path == key && forall i :: 0 <= i < k ==> ts[i].path != key
  {
    if ts == [] then -1
    else
      var k := PathIndex(ts[..|ts| - 1], key);
      if k >= 0 then k
      else if ts[|ts| - 1].path == key then |ts| - 1
      else -1
  }

  class Model {
    var rootGameObject: GameObject?
    var gameObjects: seq<GameObject?>
    var fullPath: string
    var fileName: string
    var fileExtension: string
    var directory: string
    var processedMeshes: int

    /** Model(): a root object named "EmptyObject" with a transform, which is the only listed object. */
    constructor()
      ensures rootGameObject != null && fresh(rootGameObject) && gameObjects == [rootGameObject]
      ensures rootGameObject.name == "EmptyObject" && rootGameObject.parent == null && rootGameObject.children == []
      ensures |rootGameObject.components| == 1 && rootGameObject.components[0].kind == Transform
      ensures fullPath == "" && fileName == "" && fileExtension == "" && directory == "" && processedMeshes == 0
    {
      var root := new GameObject("EmptyObject");
      var t := root.AddComponent(Transform);
      rootGameObject := root;
      gameObjects := [root];
      fullPath, fileName, fileExtension, directory := "", "", "", "";
      processedMeshes := 0;
    }

    /** The fields loadModel fills from the path it loads. */
    method SetPath(path: string)
      requires |path| < NPOS
      modifies this`fullPath, this`fileExtension, this`directory, this`fileName
      ensures ModelPath(fullPath, fileExtension, directory, fileName) == SplitModelPath(path)
    {
      var p := SplitModelPath(path);
      fullPath, fileExtension, directory, fileName := p.fullPath, p.fileExtension, p.directory, p.fileName;
    }

    /**
     * Model::DestroyGameObject: null is ignored. Otherwise the object is
     * marked, every descendant reached through objects not marked before
     * is marked, nothing outside its subtree is touched, and the object
     * leaves its parent's children. It stays in `gameObjects`.
     */
    method DestroyGameObject(go: GameObject?, ghost g: Shape)
      requires go != null ==> WellRanked(g) && Mirrors(g) && go in g.kids
      modifies (if go == null then {} else Subtree(go, g))`markedForDestroy, (if go == null then {} else {go})`parent
      modifies (if go == null || go.parent == null then {} else {go.parent})`children
      ensures go != null ==>
        go.markedForDestroy && MarkedIn(g) == old(MarkedIn(g)) + Cascade(go, g, old(MarkedIn(g)))
      ensures go != null && old(go.parent) != null ==>
        var p := old(go.parent);
        p.children == Erased(old(p.children), go) && (go in old(p.children) ==> go.parent == null)
      ensures gameObjects == old(gameObjects)
    {
      if go == null {
        return;
      }
      ghost var was := MarkedIn(g);
      go.MarkForDestroy();
      assert MarkedIn(g) == was + {go};
      ForestBelow(g.kids[go], g, g.rank[go]);
      CascadeForestSkipOutside(g.kids[go], g, g.rank[go], was, go);
      MarkChildren(go, g);
      var p := go.parent;
      if p != null {
        p.RemoveChild(go);
      }
    }

    /**
     * Model::CleanUpDestroyedObjects: the marked objects leave
     * `gameObjects`; null entries and the rest stay in order.
     */
    method CleanUpDestroyedObjects()
      modifies this`gameObjects
      ensures gameObjects == Filter(old(gameObjects), Outside(old(MarkedObjects(gameObjects))))
    {
      var objects := gameObjects;
      ghost var doomed := MarkedObjects(objects);
      var kept: seq<GameObject?> := [];
      var i := 0;
      while i < |objects|
        invariant 0 <= i <= |objects| && kept == Filter(objects[..i], Outside(doomed))
      {
        var go := objects[i];
        FilterSnoc(objects[..i], go, Outside(doomed));
        assert go in objects;
        if !(go != null && go.markedForDestroy) {
          kept := kept + [go];
        }
        assert objects[..i + 1] == objects[..i] + [go];
        i := i + 1;
      }
      assert objects[..i] == objects;
      gameObjects := kept;
    }

    /**
     * Model::CreateEmptyGameObject: a new object with a transform, a child
     * of `parent`, or of the root when no parent is given, appended to
     * `gameObjects`.
     */
    method CreateEmptyGameObject(name: string, parent: GameObject?) returns (go: GameObject)
      modifies this`gameObjects
      modifies if parent != null then {parent} else if rootGameObject != null then {rootGameObject} else {}
      ensures fresh(go) && go.name == name && go.children == [] && !go.markedForDestroy
      ensures |go.components| == 1 && go.components[0].kind == Transform && go.components[0].owner == go
      ensures go.parent == if parent != null then parent else rootGameObject
      ensures parent != null ==> parent.children == old(parent.children) + [go]
      ensures parent == null && rootGameObject != null ==> rootGameObject.children == old(rootGameObject.children) + [go]
      ensures gameObjects == old(gameObjects) + [go]
    {
      go := new GameObject(name);
      var t := go.AddComponent(Transform);
      if parent != null {
        go.SetParent(parent);
      } else if rootGameObject != null {
        go.SetParent(rootGameObject);
      }
      gameObjects := gameObjects + [go];
    }

    /**
     * Model::GetOrLoadTexture: the first loaded texture whose path is
     * `key` is returned and nothing changes; otherwise a new texture is
     * loaded from `key` and `fileName`, given the type and `key` as its
     * path, and appended to the loaded list.
     */
    method GetOrLoadTexture(key: string, fileName: string, typeName: string,
                            texModule: Texture, images: map<string, DecodedImage>, gl: Context)
      returns (t: Texture)
      requires gl.Valid()
      modifies texModule`texturesLoaded, gl`live, gl`next, gl`textures
      ensures gl.Valid()
      ensures old(PathIndex(texModule.texturesLoaded, key)) >= 0 ==>
        t == old(texModule.texturesLoaded[PathIndex(texModule.texturesLoaded, key)])
        && texModule.texturesLoaded == old(texModule.texturesLoaded) && unchanged(gl)
      ensures old(PathIndex(texModule.texturesLoaded, key)) < 0 ==>
        fresh(t) && t.path == key && t.mapType == typeName
        && t.id != 0 && t.id !in old(gl.live) && gl.live == old(gl.live) + {t.id}
        && texModule.texturesLoaded == old(texModule.texturesLoaded) + [t]
      ensures old(PathIndex(texModule.texturesLoaded, key)) < 0 ==>
        var file := JoinTexturePath(key, fileName);
        (file in images ==>
          var img := images[file];
          t.texW == img.width && t.texH == img.height
          && gl.textures == old(gl.textures)[t.id := Image(CorrectedChannelFormat(img.channels), img.width, img.height, img.pixels)])
        && (file !in images ==> gl.textures == old(gl.textures))
      ensures UniquePaths(old(texModule.texturesLoaded)) ==> UniquePaths(texModule.texturesLoaded)
    {
      ghost var k := PathIndex(texModule.texturesLoaded, key);
      var i := 0;
      while i < |texModule.texturesLoaded|
        invariant 0 <= i <= |texModule.texturesLoaded|
        invariant forall j :: 0 <= j < i ==> texModule.texturesLoaded[j].path != key
      {
        if texModule.texturesLoaded[i].path == key {
          assert k == i;
          return texModule.texturesLoaded[i];
        }
        i := i + 1;
      }
      assert k == -1;
      t := new Texture();
      var id := t.TextureFromFile(key, fileName, images, gl);
      t.mapType := typeName;
      t.path := key;
      texModule.texturesLoaded := texModule.texturesLoaded + [t];
    }

    /**
     * Model::loadMaterialTextures: one texture per name, each looked up
     * under the model's own path, so they are all one texture.
     */
    method LoadMaterialTextures(names: seq<string>, typeName: string,
                                texModule: Texture, images: map<string, DecodedImage>, gl: Context)
      returns (ts: seq<Texture>)
      requires gl.Valid()
      modifies texModule`texturesLoaded, gl`live, gl`next, gl`textures
      ensures gl.Valid() && |ts| == |names|
      ensures forall i :: 0 <= i < |ts| ==> ts[i] == ts[0] && ts[i].path == fullPath
      ensures |texModule.texturesLoaded| <= |old(texModule.texturesLoaded)| + 1
      ensures UniquePaths(old(texModule.texturesLoaded)) ==> UniquePaths(texModule.texturesLoaded)
    {
      ts := [];
      var i := 0;
      while i < |names|
        invariant 0 <= i <= |names| && |ts| == i && gl.Valid()
        invariant i == 0 ==> texModule.texturesLoaded == old(texModule.texturesLoaded)
        invariant |texModule.texturesLoaded| <= |old(texModule.texturesLoaded)| + 1
        invariant UniquePaths(old(texModule.texturesLoaded)) ==> UniquePaths(texModule.texturesLoaded)
        invariant i > 0 ==>
          var k := PathIndex(texModule.texturesLoaded, fullPath);
          k >= 0 && forall j :: 0 <= j < i ==> ts[j] == texModule.texturesLoaded[k]
      {
        var t := GetOrLoadTexture(fullPath, names[i], typeName, texModule, images, gl);
        ts := ts + [t];
        i := i + 1;
      }
    }

    /**
     * Model::AssignDefaultTexture: the default texture, looked up under
     * the default path with the last component of that path as file name
     * and "texture_diffuse" as type, is appended when its id is not 0.
     */
    method AssignDefaultTexture(textures: seq<Texture>, texModule: Texture,
                                images: map<string, DecodedImage>, gl: Context)
      returns (r: seq<Texture>)
      requires gl.Valid()
      modifies texModule`texturesLoaded, gl`live, gl`next, gl`textures
      ensures gl.Valid()
      ensures r == textures || (|r| == |textures| + 1 && r[..|textures|] == textures
        && r[|textures|].path == texModule.defaultTexDir && r[|textures|].id != 0)
      ensures old(PathIndex(texModule.texturesLoaded, texModule.defaultTexDir)) < 0 ==>
        |r| == |textures| + 1 && r[|textures|].mapType == "texture_diffuse"
        && texModule.texturesLoaded == old(texModule.texturesLoaded) + [r[|textures|]]
      ensures var k := old(PathIndex(texModule.texturesLoaded, texModule.defaultTexDir));
        k >= 0 ==>
          r == (if old(texModule.texturesLoaded[k].id) != 0 then textures + [old(texModule.texturesLoaded[k])] else textures)
          && texModule.texturesLoaded == old(texModule.texturesLoaded)
    {
      var path := texModule.defaultTexDir;
      var name := FileNameOf(path);
      var t := GetOrLoadTexture(path, name, "texture_diffuse", texModule, images, gl);
      if t.id != 0 {
        r := textures + [t];
      } else {
        r := textures;
      }
    }
  }

  /**
   * The file AssignDefaultTexture reads: the default path is passed as the
   * directory, so its last component is joined onto the whole path again
   * ("../Assets/Textures/checkers.jpg/checkers.jpg" for the default).
   */
  lemma DefaultTextureReadPath(path: string)
    requires path != [] && '\\' !in path && path[|path| - 1] != '/'
    ensures JoinTexturePath(path, FileNameOf(path)) == path + "/" + FileNameOf(path)
  {
    assert NormalizePath(path) == path;
  }
}
