/**
 * The scene graph (GameObject.h, Gameobject.cpp) and the components it
 * holds, with the mesh renderer's lazy loading (RenderMeshComponent.cpp).
 *
 * Shared pointers become object references; a weak pointer that no longer
 * resolves is `null`. Children are only ever added through AddChild, which
 * refuses null, so the child list holds no null entry. Recursion over the
 * children follows a ghost Shape: a snapshot of the children lists with a
 * rank that decreases from parent to child, which is what a scene tree
 * without cycles provides.
 */
module SceneGraph {
  import opened Common
  import opened FileSystem
  import opened Gl
  import opened Resources
  import opened ModelImporter

  datatype ComponentType = Transform | MeshRenderer | Material | Camera

  /** The kinds AddComponent knows how to create. */
  predicate Creatable(kind: ComponentType)
  {
    kind == Transform || kind == MeshRenderer || kind == Material
  }

  class Component {
    const kind: ComponentType
    const owner: GameObject?
    var active: bool
    var mesh: ResourceMesh?

    /** A component of the given kind, active, attached to its owner, holding no mesh. */
    constructor(kind: ComponentType, owner: GameObject?)
      ensures this.kind == kind && this.owner == owner && active && mesh == null
    {
      this.kind := kind;
      this.owner := owner;
      active := true;
      mesh := null;
    }

    /** RenderMeshComponent::SetMesh: the reference is stored and a non-null mesh is loaded. */
    method SetMesh(newMesh: ResourceMesh?, fs: FileSystem, gl: Context)
      requires gl.Valid()
      modifies this`mesh, newMesh, if newMesh != null then {newMesh.base} else {}, gl
      ensures gl.Valid() && mesh == newMesh
      ensures newMesh == null ==> unchanged(gl)
      ensures newMesh != null && old(newMesh.base.loaded) ==> unchanged(newMesh, newMesh.base, gl)
      ensures newMesh != null && !old(newMesh.base.loaded) ==>
        newMesh.base.loaded == LibraryFileReadable(newMesh.base.libraryPath, fs.disk)
        && LoadEffect(newMesh, gl, fs.disk)
    {
      mesh := newMesh;
      if mesh != null {
        mesh.LoadInMemory(fs, gl);
      }
    }

    /** The guards at the top of RenderMeshComponent::Render: active, a shader, a mesh. */
    predicate Renders(shader: bool)
      reads this
    {
      active && shader && mesh != null
    }

    /**
     * RenderMeshComponent::Render: an inactive component, a missing shader
     * or a missing mesh does nothing. Otherwise an unloaded mesh is loaded
     * first, and the mesh is drawn when its owner still exists and has a
     * transform component (ResourceMesh::BindAndDraw draws only when loaded).
     */
    method Render(shader: bool, fs: FileSystem, gl: Context)
      requires gl.Valid()
      modifies mesh, if mesh != null then {mesh.base} else {}, gl
      ensures gl.Valid()
      ensures !Renders(shader) ==> unchanged(gl) && (mesh != null ==> unchanged(mesh, mesh.base))
      ensures Renders(shader) ==>
        mesh.base.loaded == (old(mesh.base.loaded) || LibraryFileReadable(mesh.base.libraryPath, fs.disk))
        && (old(mesh.base.loaded) ==>
              unchanged(mesh, mesh.base) && gl.live == old(gl.live) && gl.buffers == old(gl.buffers)
              && gl.textures == old(gl.textures))
        && (!old(mesh.base.loaded) ==> LoadState(mesh, gl, fs.disk))
        && gl.calls == old(gl.calls)
             + (if mesh.base.loaded && owner != null && IndexOfType(owner.components, Transform) >= 0
                then [DrawElements(mesh.vao, mesh.indexCount)] else [])
    {
      if !active || !shader {
        return;
      }
      if mesh == null {
        return;
      }
      if !mesh.base.loaded {
        mesh.LoadInMemory(fs, gl);
      }
      if owner == null {
        return;
      }
      var transform := owner.GetComponent(Transform);
      if transform == null {
        return;
      }
      mesh.BindAndDraw(gl);
    }
  }

  /** Position of the first component of a kind, or -1. */
  function IndexOfType(cs: seq<Component>, kind: ComponentType): (k: int)
    ensures -1 <= k < |cs|
    ensures k == -1 <==> forall i :: 0 <= i < |cs| ==> cs[i].kind != kind
    ensures k >= 0 ==> cs[k].kind == kind && forall i :: 0 <= i < k ==> cs[i].kind != kind
  {
    if cs == [] then -1
    else if cs[0].kind == kind then 0
    else
      var k := IndexOfType(cs[1..], kind);
      if k == -1 then -1 else k + 1
  }

  /** The test RemoveComponent applies to each component: keep it unless it is of the removed kind. */
  function OtherKind(kind: ComponentType): Component -> bool
  {
    (c: Component) => c.kind != kind
  }

  class GameObject {
    var name: string
    var active: bool
    var isSelected: bool
    var markedForDestroy: bool
    var isEmpty: bool
    var ownerModel: object?
    var parent: GameObject?
    var children: seq<GameObject>
    var components: seq<Component>

    /** GameObject(name): active, unmarked, unselected, not empty, with no owner, parent, children or components. */
    constructor(name: string)
      ensures this.name == name && active && !isSelected && !markedForDestroy && !isEmpty
      ensures ownerModel == null && parent == null && children == [] && components == []
    {
      this.name := name;
      active := true;
      isSelected, markedForDestroy, isEmpty := false, false, false;
      ownerModel := null;
      parent := null;
      children := [];
      components := [];
    }

    /**
     * GameObject::AddComponent: a transform, mesh renderer or material is
     * created for this object and appended; any other kind is refused with
     * null and the list is left alone.
     */
    method AddComponent(kind: ComponentType) returns (c: Component?)
      modifies this`components
      ensures Creatable(kind) ==>
        c != null && fresh(c) && c.kind == kind && c.owner == this && c.active && c.mesh == null
        && components == old(components) + [c]
      ensures !Creatable(kind) ==> c == null && components == old(components)
    {
      if !Creatable(kind) {
        return null;
      }
      c := new Component(kind, this);
      components := components + [c];
    }

    /** GameObject::GetComponent: the first component of the kind, or null. */
    method GetComponent(kind: ComponentType) returns (c: Component?)
      ensures var k := IndexOfType(components, kind);
        c == if k == -1 then null else components[k]
    {
      var i := 0;
      while i < |components|
        invariant 0 <= i <= |components|
        invariant forall j :: 0 <= j < i ==> components[j].kind != kind
      {
        if components[i].kind == kind {
          return components[i];
        }
        i := i + 1;
      }
      return null;
    }

    /**
     * GameObject::RemoveComponent: every component of the kind goes, the
     * others stay in their order.
     */
    method RemoveComponent(kind: ComponentType)
      modifies this`components
      ensures components == Filter(old(components), OtherKind(kind))
      ensures forall i :: 0 <= i < |components| ==> components[i].kind != kind && components[i] in old(components)
      ensures forall i :: 0 <= i < |old(components)| && old(components)[i].kind != kind ==> old(components)[i] in components
    {
      FilterMembers(components, OtherKind(kind));
      components := Filter(components, OtherKind(kind));
    }

    function GetComponentCount(): (n: int)
      reads this
      ensures n == |components|
    {
      |components|
    }

    method SetName(n: string)
      modifies this`name
      ensures name == n
    {
      name := n;
    }

    method MarkForDestroy()
      modifies this`markedForDestroy
      ensures markedForDestroy
    {
      markedForDestroy := true;
    }

    method SetAsEmpty()
      modifies this`isEmpty
      ensures isEmpty
    {
      isEmpty := true;
    }

    method SetOwnerModel(model: object?)
      modifies this`ownerModel
      ensures ownerModel == model
    {
      ownerModel := model;
    }

    /**
     * GameObject::SetActive: the flag is set on this object and, through
     * the children, on every descendant.
     */
    method SetActive(b: bool, ghost g: Shape)
      requires WellRanked(g) && Mirrors(g) && this in g.kids
      modifies Subtree(this, g)`active
      ensures forall n :: n in Subtree(this, g) ==> n.active == b
      decreases g.rank[this]
    {
      active := b;
      ghost var bound := g.rank[this];
      var i := 0;
      while i < |children|
        invariant 0 <= i <= |children| && children == g.kids[this]
        invariant active == b
        invariant forall n :: n in Forest(children[..i], g, bound) ==> n.active == b
      {
        var child := children[i];
        ForestStep(this, i, g);
        child.SetActive(b, g);
        i := i + 1;
      }
      assert children[..i] == children;
    }

    /**
     * GameObject::AddChild: null and a child already listed are ignored;
     * otherwise the child is appended and its parent becomes this object.
     */
    method AddChild(child: GameObject?)
      modifies this`children, (if child == null then {} else {child})`parent
      ensures child == null || child in old(children) ==> children == old(children) && (child != null ==> child.parent == old(child.parent))
      ensures child != null && child !in old(children) ==> children == old(children) + [child] && child.parent == this
      ensures NoDuplicates(old(children)) ==> NoDuplicates(children)
    {
      if child == null {
        return;
      }
      var found := FindChild(child);
      if found >= 0 {
        return;
      }
      children := children + [child];
      child.parent := this;
    }

    /**
     * AddChild as the scene graph needs it: besides null and a child already
     * listed, this object and its ancestors are refused as children, so the
     * children links stay ranked. The returned shape covers the same objects.
     */
    method AddChildAcyclic(child: GameObject?, ghost g: Shape) returns (ghost g2: Shape)
      requires WellRanked(g) && Mirrors(g) && this in g.kids && (child != null ==> child in g.kids)
      modifies this`children, (if child == null then {} else {child})`parent
      ensures child == null || child in old(children) || this in Subtree(child, g) ==>
        children == old(children) && (child != null ==> child.parent == old(child.parent))
      ensures child != null && child !in old(children) && this !in Subtree(child, g) ==>
        children == old(children) + [child] && child.parent == this
      ensures WellRanked(g2) && Mirrors(g2) && g2.kids.Keys == g.kids.Keys
    {
      g2 := g;
      if child != null {
        var found := FindChild(child);
        var cyclic := child.Reaches(this, g);
        if found < 0 && !cyclic {
          AddEdgeRanked(g, this, child);
          LinkChild(child);
          g2 := Shape(g.kids[this := children], Raised(g.rank, Ancestors(g, this), g.rank[child] + 1));
        }
      }
    }

    /** The two assignments AddChild makes once its checks pass. */
    method LinkChild(child: GameObject)
      modifies this`children, child`parent
      ensures children == old(children) + [child] && child.parent == this
    {
      children := children + [child];
      child.parent := this;
    }

    /** Whether `target` is this object or one of its descendants, by a walk over the children. */
    method Reaches(target: GameObject, ghost g: Shape) returns (b: bool)
      requires WellRanked(g) && Mirrors(g) && this in g.kids
      ensures b <==> target in Subtree(this, g)
      decreases g.rank[this]
    {
      if this == target {
        return true;
      }
      ghost var bound := g.rank[this];
      var i := 0;
      while i < |children|
        invariant 0 <= i <= |children| && children == g.kids[this]
        invariant target !in Forest(children[..i], g, bound)
      {
        ForestStep(this, i, g);
        b := children[i].Reaches(target, g);
        if b {
          return;
        }
        i := i + 1;
      }
      assert children[..i] == children;
      b := false;
    }

    /** std::find over the children: the first position holding `child`, or -1. */
    method FindChild(child: GameObject) returns (k: int)
      ensures k == FirstIndex(children, child)
    {
      k := 0;
      while k < |children|
        invariant 0 <= k <= |children| && child !in children[..k]
      {
        if children[k] == child {
          return k;
        }
        assert children[..k + 1] == children[..k] + [children[k]];
        k := k + 1;
      }
      assert children[..k] == children;
      k := -1;
    }

    /**
     * GameObject::RemoveChild: the first occurrence of the child is erased
     * and its parent link cleared; null or a child not listed change
     * nothing.
     */
    method RemoveChild(child: GameObject?)
      modifies this`children, (if child == null then {} else {child})`parent
      ensures child == null || child !in old(children) ==> children == old(children) && (child != null ==> child.parent == old(child.parent))
      ensures child != null && child in old(children) ==>
        children == RemoveFirst(old(children), child) && child.parent == null
      ensures NoDuplicates(old(children)) ==> NoDuplicates(children) && (child != null ==> child !in children)
    {
      if child == null {
        return;
      }
      var k := FindChild(child);
      if k < 0 {
        return;
      }
      if NoDuplicates(children) {
        RemoveFirstNoDuplicates(children, child);
      }
      children := children[..k] + children[k + 1..];
      child.parent := null;
    }

    /**
     * GameObject::SetParent: this object leaves the children of its current
     * parent, its parent link becomes `newParent`, and it is appended to the
     * children of `newParent` unless already listed there.
     */
    method SetParent(newParent: GameObject?)
      modifies this`parent, (if parent == null then {} else {parent})`children,
        (if newParent == null then {} else {newParent})`children
      ensures parent == newParent
      ensures var p := old(parent);
        p != null && p != newParent ==> p.children == Erased(old(p.children), this)
      ensures var p := old(parent);
        newParent != null ==>
          var kept := if p == newParent then Erased(old(newParent.children), this) else old(newParent.children);
          newParent.children == (if this in kept then kept else kept + [this])
    {
      ghost var p := parent;
      Detach();
      ghost var kept := if newParent == null then [] else newParent.children;
      assert newParent != null ==>
        kept == if p == newParent then Erased(old(newParent.children), this) else old(newParent.children);
      parent := newParent;
      if newParent != null {
        newParent.AddChild(this);
      }
    }

    /** The first step of SetParent: this object leaves the children of its current parent. */
    method Detach()
      modifies this`parent, (if parent == null then {} else {parent})`children
      ensures var p := old(parent); p != null ==> p.children == Erased(old(p.children), this)
    {
      var p := parent;
      if p != null {
        ghost var before := p.children;
        p.RemoveChild(this);
        assert p.children == Erased(before, this);
      }
    }
  }

  /** The first position of `x` in `s`, or -1. */
  function FirstIndex<T(==)>(s: seq<T>, x: T): (k: int)
    ensures -1 <= k < |s|
    ensures k == -1 <==> x !in s
    ensures k >= 0 ==> s[k] == x && x !in s[..k]
  {
    if s == [] then -1
    else if s[0] == x then 0
    else
      var k := FirstIndex(s[1..], x);
      if k == -1 then -1 else
        assert s[..k + 1] == [s[0]] + s[1..][..k];
        k + 1
  }

  /** `s` without its first occurrence of `x`. */
  function RemoveFirst<T(==)>(s: seq<T>, x: T): (r: seq<T>)
    requires x in s
    ensures |r| == |s| - 1
  {
    var k := FirstIndex(s, x);
    s[..k] + s[k + 1..]
  }

  /** `s` without its first occurrence of `x`, or `s` when `x` is absent. */
  function Erased<T(==)>(s: seq<T>, x: T): seq<T>
  {
    if x in s then RemoveFirst(s, x) else s
  }

  /** Without duplicates, removing the child leaves no trace of it and keeps every other child. */
  lemma RemoveFirstNoDuplicates<T>(s: seq<T>, x: T)
    requires x in s && NoDuplicates(s)
    ensures x !in RemoveFirst(s, x) && NoDuplicates(RemoveFirst(s, x))
    ensures forall y :: y in s && y != x ==> y in RemoveFirst(s, x)
  {
    var k := FirstIndex(s, x);
    var r := RemoveFirst(s, x);
    forall i | 0 <= i < |r|
      ensures r[i] == if i < k then s[i] else s[i + 1]
    {
    }
    forall y | y in s && y != x
      ensures y in r
    {
      var j :| 0 <= j < |s| && s[j] == y;
      assert j != k;
      if j < k {
        assert r[j] == y;
      } else {
        assert r[j - 1] == y;
      }
    }
  }

  // ---------------------------------------------------------------------
  // Shapes: the scene graph is a forest
  // ---------------------------------------------------------------------

  /**
   * A snapshot of the children lists of some objects, with a rank that
   * decreases from every object to each of its children.
   */
  datatype Shape = Shape(kids: map<GameObject, seq<GameObject>>, rank: map<GameObject, nat>)

  ghost predicate WellRanked(g: Shape)
  {
    g.kids.Keys <= g.rank.Keys
    && forall n, c :: n in g.kids && c in g.kids[n] ==> c in g.kids && g.rank[c] < g.rank[n]
  }

  /** The snapshot agrees with the objects' current children. */
  ghost predicate Mirrors(g: Shape)
    reads g.kids.Keys`children
  {
    forall n :: n in g.kids ==> g.kids[n] == n.children
  }

  /** An object and all its descendants. */
  ghost function Subtree(n: GameObject, g: Shape): set<GameObject>
    requires WellRanked(g) && n in g.kids
    decreases g.rank[n], 1, 0
  {
    {n} + Forest(g.kids[n], g, g.rank[n])
  }

  /** The subtrees of a list of objects, each ranked below `bound`, together. */
  ghost function Forest(cs: seq<GameObject>, g: Shape, bound: nat): set<GameObject>
    requires WellRanked(g) && forall c :: c in cs ==> c in g.kids && g.rank[c] < bound
    decreases bound, 0, |cs|
  {
    if cs == [] then {} else Forest(cs[..|cs| - 1], g, bound) + Subtree(cs[|cs| - 1], g)
  }

  /** Each listed object's subtree lies in the forest of the list. */
  lemma {:induction false} ForestContains(cs: seq<GameObject>, g: Shape, bound: nat, j: nat)
    requires WellRanked(g) && forall c :: c in cs ==> c in g.kids && g.rank[c] < bound
    requires j < |cs|
    ensures Subtree(cs[j], g) <= Forest(cs, g, bound)
    decreases |cs|
  {
    if j < |cs| - 1 {
      ForestContains(cs[..|cs| - 1], g, bound, j);
    }
  }

  /**
   * What one step of a walk over the children needs: the next child's
   * subtree is part of the parent's, leaves out the parent, and joins the
   * forest of the children walked so far.
   */
  lemma ForestStep(n: GameObject, i: nat, g: Shape)
    requires WellRanked(g) && n in g.kids && i < |g.kids[n]|
    ensures g.kids[n][i] in g.kids && Subtree(g.kids[n][i], g) <= Subtree(n, g)
    ensures n !in Subtree(g.kids[n][i], g)
    ensures forall d :: d in Forest(g.kids[n][..i], g, g.rank[n]) ==> d in g.kids
    ensures Forest(g.kids[n][..i + 1], g, g.rank[n]) == Forest(g.kids[n][..i], g, g.rank[n]) + Subtree(g.kids[n][i], g)
  {
    var cs := g.kids[n];
    ForestContains(cs, g, g.rank[n], i);
    SubtreeBelow(cs[i], g);
    ForestBelow(cs[..i], g, g.rank[n]);
    assert cs[..i + 1][..i] == cs[..i];
  }

  /** Everything in a subtree ranks no higher than its top. */
  lemma {:induction false} SubtreeBelow(n: GameObject, g: Shape)
    requires WellRanked(g) && n in g.kids
    ensures forall d :: d in Subtree(n, g) ==> d in g.kids && g.rank[d] <= g.rank[n]
    decreases g.rank[n], 1, 0
  {
    ForestBelow(g.kids[n], g, g.rank[n]);
  }

  /** Everything in a forest ranks below its bound. */
  lemma {:induction false} ForestBelow(cs: seq<GameObject>, g: Shape, bound: nat)
    requires WellRanked(g) && forall c :: c in cs ==> c in g.kids && g.rank[c] < bound
    ensures forall d :: d in Forest(cs, g, bound) ==> d in g.kids && g.rank[d] < bound
    decreases bound, 0, |cs|
  {
    if cs != [] {
      ForestBelow(cs[..|cs| - 1], g, bound);
      SubtreeBelow(cs[|cs| - 1], g);
    }
  }

  /** The objects whose subtree holds `top`: those that must rise when `top` gains a child. */
  ghost function Ancestors(g: Shape, top: GameObject): set<GameObject>
    requires WellRanked(g)
  {
    set m | m in g.kids && top in Subtree(m, g)
  }

  /** The ranks with every object of `up` raised by `k`. */
  ghost function Raised(rank: map<GameObject, nat>, up: set<GameObject>, k: nat): map<GameObject, nat>
  {
    map m | m in rank :: if m in up then rank[m] + k else rank[m]
  }

  /** A link from `top` to an object whose subtree does not hold `top` keeps the graph ranked, once the ancestors of `top` rise. */
  lemma AddEdgeRanked(g: Shape, top: GameObject, child: GameObject)
    requires WellRanked(g) && top in g.kids && child in g.kids && top !in Subtree(child, g)
    ensures WellRanked(Shape(g.kids[top := g.kids[top] + [child]], Raised(g.rank, Ancestors(g, top), g.rank[child] + 1)))
  {
    AncestorsClosed(g, top, child);
    RaisedRanked(g, top, child, Ancestors(g, top), g.rank[child] + 1);
  }

  /** `top` is its own ancestor, the new child is not, and the parent of an ancestor is one. */
  lemma AncestorsClosed(g: Shape, top: GameObject, child: GameObject)
    requires WellRanked(g) && top in g.kids && child in g.kids && top !in Subtree(child, g)
    ensures top in Ancestors(g, top) && child !in Ancestors(g, top)
    ensures forall n, c :: n in g.kids && c in g.kids[n] && c in Ancestors(g, top) ==> n in Ancestors(g, top)
  {
    assert top in Subtree(top, g);
    forall n, c | n in g.kids && c in g.kids[n] && c in Ancestors(g, top)
      ensures n in Ancestors(g, top)
    {
      var i :| 0 <= i < |g.kids[n]| && g.kids[n][i] == c;
      ForestStep(n, i, g);
    }
  }

  /**
   * Raising a set that holds `top`, not `child`, and the parent of each of
   * its members, by more than the child's rank, orders the graph with the
   * link from `top` to `child` added.
   */
  lemma RaisedRanked(g: Shape, top: GameObject, child: GameObject, up: set<GameObject>, k: nat)
    requires WellRanked(g) && top in g.kids && child in g.kids && top in up && child !in up && g.rank[child] < k
    requires forall n, c :: n in g.kids && c in g.kids[n] && c in up ==> n in up
    ensures WellRanked(Shape(g.kids[top := g.kids[top] + [child]], Raised(g.rank, up, k)))
  {
    var r := Raised(g.rank, up, k);
    forall n, c | n in g.kids && c in g.kids[n]
      ensures r[c] < r[n]
    {
    }
    RankedAfterLink(g, top, child, r);
  }

  /** Ranks that order every existing link and put `top` above `child` order the graph with the link added. */
  lemma RankedAfterLink(g: Shape, top: GameObject, child: GameObject, r: map<GameObject, nat>)
    requires WellRanked(g) && top in g.kids && child in g.kids && g.rank.Keys <= r.Keys
    requires forall n, c :: n in g.kids && c in g.kids[n] ==> r[c] < r[n]
    requires r[child] < r[top]
    ensures WellRanked(Shape(g.kids[top := g.kids[top] + [child]], r))
  {
    var kids := g.kids[top := g.kids[top] + [child]];
    forall n, c | n in kids && c in kids[n]
      ensures c in kids && r[c] < r[n]
    {
      if n == top && c !in g.kids[top] {
        assert c == child;
      }
    }
  }

  /**
   * AddChild as written accepts an object as its own child. The link is a
   * cycle that no shape ranks, so the walks over the children (SetActive,
   * the serializer) have nothing to stop them.
   */
  method SelfChildCycle(name: string) returns (a: GameObject)
    ensures a.name == name && a.children == [a] && a.parent == a
    ensures forall g: Shape :: Mirrors(g) && a in g.kids ==> !WellRanked(g)
  {
    a := new GameObject(name);
    a.AddChild(a);
    forall g: Shape | Mirrors(g) && a in g.kids
      ensures !WellRanked(g)
    {
      assert a in g.kids[a];
    }
  }
}
