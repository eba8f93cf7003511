/**
 * SceneSerializer.cpp: saving the scene under a root object as a JSON
 * tree, and loading such a tree back under a root.
 *
 * JSON is an abstract tree: numbers are opaque (the transform's values are
 * not part of this model), and an object is a list of members looked up
 * by key. Reading and writing the file text is not modelled: saving yields
 * the tree, and loading takes the parsed tree, or None when the file does
 * not open.
 */
module Serializer {
  import opened Common
  import opened SceneGraph

  datatype Json = Null | Bool(b: bool) | Number | Str(s: string) | Arr(items: seq<Json>) | Obj(members: seq<Member>)
  datatype Member = Member(key: string, value: Json)

  /** Position of the first member with the key, or -1. */
  function Find(ms: seq<Member>, key: string): (k: int)
    ensures -1 <= k < |ms|
    ensures k == -1 <==> forall i :: 0 <= i < |ms| ==> ms[i].key != key
    ensures k >= 0 ==> ms[k].key == key && forall i :: 0 <= i < k ==> ms[i].key != key
  {
    if ms == [] then -1
    else if ms[0].key == key then 0
    else
      var k := Find(ms[1..], key);
      if k == -1 then -1 else k + 1
  }

  /** The member value under `key`; only an object has members. */
  function Get(j: Json, key: string): (r: Option<Json>)
    ensures r.Some? ==> j.Obj? && r.value < j
  {
    if !j.Obj? then None
    else
      var k := Find(j.members, key);
      if k < 0 then None else Some(j.members[k].value)
  }

  /** json::contains */
  predicate Contains(j: Json, key: string)
  {
    Get(j, key).Some?
  }

  /**
   * What a range-for over a JSON value visits: the elements of an array,
   * the member values of an object, nothing for null, and the value
   * itself for any other value.
   */
  function Items(v: Json): (r: seq<Json>)
    ensures forall i :: 0 <= i < |r| ==> r[i] < v || r[i] == v
    ensures v.Arr? ==> r == v.items
    ensures v.Null? ==> r == []
  {
    match v
    case Null => []
    case Arr(items) => items
    case Obj(ms) => seq(|ms|, i requires 0 <= i < |ms| => ms[i].value)
    case _ => [v]
  }

  /** What the serializer writes for a transform: three vectors whose numbers are opaque here. */
  const TRANSFORM_JSON: Json := Obj([
    Member("position", Arr([Number, Number, Number])),
    Member("rotation", Arr([Number, Number, Number])),
    Member("scale", Arr([Number, Number, Number]))])

  /** A scene object as the scene file can record it. */
  datatype Node = Node(name: string, active: bool, hasTransform: bool, children: seq<Node>)

  // ---------------------------------------------------------------------
  // Saving
  // ---------------------------------------------------------------------

  /**
   * SceneSerializer::SerializeGameObject: name, active flag, a transform
   * entry under "components" exactly when the object has a transform, and
   * the children in order.
   */
  function SerializeGameObject(n: GameObject, g: Shape): (j: Json)
    requires WellRanked(g) && Mirrors(g) && n in g.kids
    reads g.kids.Keys
    ensures NameOf(j) == n.name && ActiveOf(j) == n.active
    ensures HasTransform(j) <==> IndexOfType(n.components, Transform) >= 0
    decreases g.rank[n], 1, 0
  {
    var hasTransform := IndexOfType(n.components, Transform) >= 0;
    var children := SerializeAll(n.children, g, g.rank[n]);
    DescribeNodeJson(n.name, n.active, hasTransform, children);
    NodeJson(n.name, n.active, hasTransform, children)
  }

  /** The JSON object written for one scene object, given its children's. */
  function NodeJson(name: string, active: bool, hasTransform: bool, children: seq<Json>): Json
  {
    Obj([Member("name", Str(name)), Member("active", Bool(active))]
      + (if hasTransform then [Member("components", Obj([Member("transform", TRANSFORM_JSON)]))] else [])
      + [Member("children", Arr(children))])
  }

  /** The children loop of SerializeGameObject: one entry per object, in order. */
  function SerializeAll(cs: seq<GameObject>, g: Shape, bound: nat): (r: seq<Json>)
    requires WellRanked(g) && Mirrors(g) && forall c :: c in cs ==> c in g.kids && g.rank[c] < bound
    reads g.kids.Keys
    ensures |r| == |cs|
    decreases bound, 0, |cs|
  {
    if cs == [] then []
    else SerializeAll(cs[..|cs| - 1], g, bound) + [SerializeGameObject(cs[|cs| - 1], g)]
  }

  /** Entry i of the children loop is the serialised child i. */
  lemma SerializeAllEntries(cs: seq<GameObject>, g: Shape, bound: nat)
    requires WellRanked(g) && Mirrors(g) && forall c :: c in cs ==> c in g.kids && g.rank[c] < bound
    ensures forall i :: 0 <= i < |cs| ==> SerializeAll(cs, g, bound)[i] == SerializeGameObject(cs[i], g)
  {
    forall i | 0 <= i < |cs|
      ensures SerializeAll(cs, g, bound)[i] == SerializeGameObject(cs[i], g)
    {
      SerializeAllEntry(cs, g, bound, i);
    }
  }

  lemma {:induction false} SerializeAllEntry(cs: seq<GameObject>, g: Shape, bound: nat, i: nat)
    requires WellRanked(g) && Mirrors(g) && forall c :: c in cs ==> c in g.kids && g.rank[c] < bound
    requires i < |cs|
    ensures SerializeAll(cs, g, bound)[i] == SerializeGameObject(cs[i], g)
    decreases |cs|
  {
    if i < |cs| - 1 {
      var front := cs[..|cs| - 1];
      SerializeAllEntry(front, g, bound, i);
      assert cs[i] == front[i];
    }
  }

  /** SceneSerializer::SaveScene: the scene's name and the root's children (not the root itself). */
  function SaveScene(root: GameObject, g: Shape): (j: Json)
    requires WellRanked(g) && Mirrors(g) && root in g.kids
    reads g.kids.Keys
    ensures Get(j, "name") == Some(Str("MyScene")) && Contains(j, "gameObjects")
    ensures Get(j, "gameObjects").value.Arr?
    ensures |Get(j, "gameObjects").value.items| == |root.children|
  {
    var entries := SerializeAll(root.children, g, g.rank[root]);
    var j := Obj([Member("name", Str("MyScene")), Member("gameObjects", Arr(entries))]);
    assert "name" != "gameObjects" && Find(j.members, "gameObjects") == 1;
    j
  }

  // ---------------------------------------------------------------------
  // Loading
  // ---------------------------------------------------------------------

  /**
   * The object DeserializeGameObject builds from a JSON node: the name, or
   * "GameObject" when missing; the active flag, or true (a new object's)
   * when missing; a transform when "components" holds "transform"; and
   * one child per item under "children".
   */
  function Describe(j: Json): (r: Node)
    decreases j, 0, 0
  {
    var kids := Get(j, "children");
    Node(NameOf(j), ActiveOf(j), HasTransform(j), if kids.Some? then DescribeAll(kids.value, Items(kids.value)) else [])
  }

  /** j.value("name", "GameObject") */
  function NameOf(j: Json): string
  {
    match Get(j, "name") case Some(Str(s)) => s case _ => "GameObject"
  }

  /** The active flag a node sets, or a new object's true. */
  function ActiveOf(j: Json): bool
  {
    match Get(j, "active") case Some(Bool(b)) => b case _ => true
  }

  /** Whether the node's "components" holds a "transform". */
  predicate HasTransform(j: Json)
  {
    var comps := Get(j, "components");
    comps.Some? && Contains(comps.value, "transform")
  }

  /** Describe for each item of a list, in order. */
  function DescribeAll(c: Json, items: seq<Json>): (r: seq<Node>)
    requires forall i :: 0 <= i < |items| ==> items[i] < c || items[i] == c
    ensures |r| == |items|
    decreases c, 1, |items|
  {
    seq(|items|, i requires 0 <= i < |items| => Describe(items[i]))
  }

  /** The tree under `n` as the scene file can record it. */
  ghost function Snapshot(n: GameObject, g: Shape): Node
    requires WellRanked(g) && n in g.kids
    reads g.kids.Keys`name, g.kids.Keys`active, g.kids.Keys`components
    decreases g.rank[n], 1, 0
  {
    Node(n.name, n.active, IndexOfType(n.components, Transform) >= 0, SnapshotAll(g.kids[n], g, g.rank[n]))
  }

  ghost function SnapshotAll(cs: seq<GameObject>, g: Shape, bound: nat): (r: seq<Node>)
    requires WellRanked(g) && forall c :: c in cs ==> c in g.kids && g.rank[c] < bound
    reads g.kids.Keys`name, g.kids.Keys`active, g.kids.Keys`components
    ensures |r| == |cs| && forall i :: 0 <= i < |cs| ==> r[i] == Snapshot(cs[i], g)
    decreases bound, 0, |cs|
  {
    if cs == [] then []
    else SnapshotAll(cs[..|cs| - 1], g, bound) + [Snapshot(cs[|cs| - 1], g)]
  }

  /** Reading back a serialised object gives the object's own tree. */
  lemma {:induction false} DescribeSerialized(n: GameObject, g: Shape)
    requires WellRanked(g) && Mirrors(g) && n in g.kids
    ensures Describe(SerializeGameObject(n, g)) == Snapshot(n, g)
    decreases g.rank[n]
  {
    var cs := n.children;
    var list := SerializeAll(cs, g, g.rank[n]);
    SerializeAllEntries(cs, g, g.rank[n]);
    DescribeNodeJson(n.name, n.active, IndexOfType(n.components, Transform) >= 0, list);
    var d := DescribeAll(Arr(list), list);
    var s := SnapshotAll(cs, g, g.rank[n]);
    forall i | 0 <= i < |cs|
      ensures d[i] == s[i]
    {
      DescribeSerialized(cs[i], g);
    }
  }

  /** Reading one object's JSON back gives its name, flag, transform and the children's JSON read back. */
  lemma DescribeNodeJson(name: string, active: bool, hasTransform: bool, children: seq<Json>)
    ensures Describe(NodeJson(name, active, hasTransform, children))
      == Node(name, active, hasTransform, DescribeAll(Arr(children), children))
  {
    var j := NodeJson(name, active, hasTransform, children);
    var ms := j.members;
    assert "name" != "active" && "name" != "children" && "active" != "children" && "components" != "children";
    assert "name" != "components" && "active" != "components";
    assert Find(ms, "name") == 0;
    assert NameOf(j) == name;
    assert Find(ms, "active") == 1;
    assert ActiveOf(j) == active;
    if hasTransform {
      assert ms[2].key == "components" && ms[3].key == "children";
      assert Find(ms, "components") == 2;
      assert Find([Member("transform", TRANSFORM_JSON)], "transform") == 0;
      assert HasTransform(j);
      assert Find(ms, "children") == 3;
    } else {
      assert ms[2].key == "children";
      assert Find(ms, "components") == -1;
      assert !HasTransform(j);
      assert Find(ms, "children") == 2;
    }
  }

  /** A snapshot taken in a larger shape that agrees on the subtree is the same. */
  lemma {:induction false} SnapshotInLarger(n: GameObject, g: Shape, h: Shape)
    requires WellRanked(g) && WellRanked(h) && n in g.kids
    requires forall m :: m in g.kids ==> m in h.kids && h.kids[m] == g.kids[m]
    ensures Snapshot(n, g) == Snapshot(n, h)
    decreases g.rank[n]
  {
    var cs := g.kids[n];
    forall i | 0 <= i < |cs|
      ensures Snapshot(cs[i], g) == Snapshot(cs[i], h)
    {
      SnapshotInLarger(cs[i], g, h);
    }
  }

  /** The objects a shape describes have ranks exactly where they have children lists. */
  ghost predicate Tight(g: Shape)
  {
    WellRanked(g) && g.rank.Keys == g.kids.Keys
  }

  /** Two shapes over different objects make one shape, which mirrors the objects when both do. */
  lemma Merge(a: Shape, b: Shape)
    requires Tight(a) && Tight(b) && a.kids.Keys !! b.kids.Keys
    ensures var n := Shape(a.kids + b.kids, a.rank + b.rank);
      Tight(n)
      && (forall m :: m in a.kids ==> m in n.kids && n.kids[m] == a.kids[m])
      && (forall m :: m in b.kids ==> m in n.kids && n.kids[m] == b.kids[m] && n.rank[m] == b.rank[m])
      && (Mirrors(a) && Mirrors(b) ==> Mirrors(n))
  {
  }

  /** A new object over objects of a shape, ranked above its children, extends the shape. */
  lemma AddTop(a: Shape, top: GameObject, kids: seq<GameObject>, bound: nat)
    requires Tight(a) && top !in a.kids
    requires forall c :: c in kids ==> c in a.kids && a.rank[c] < bound
    ensures var n := Shape(a.kids[top := kids], a.rank[top := bound]);
      Tight(n) && forall m :: m in a.kids ==> m in n.kids && n.kids[m] == a.kids[m]
  {
  }

  /**
   * SceneSerializer::DeserializeGameObject: a new object named from the
   * node, attached to `parent` (the extra AddChild finds it already there),
   * with the node's active flag, a transform when the node records one, and
   * its children built in order under it.
   */
  method DeserializeGameObject(j: Json, parent: GameObject) returns (go: GameObject, ghost gs: Shape)
    modifies parent`children
    ensures fresh(go) && go.parent == parent && parent.children == old(parent.children) + [go]
    ensures Tight(gs) && Mirrors(gs) && go in gs.kids && forall m :: m in gs.kids ==> fresh(m)
    ensures Snapshot(go, gs) == Describe(j)
    decreases j, 0
  {
    go := NewGameObject(j, parent);
    var kids := Get(j, "children");
    ghost var list: seq<GameObject> := [];
    ghost var acc := Shape(map[], map[]);
    ghost var bound: nat := 0;
    ghost var want: seq<Node> := [];
    if kids.Some? {
      list, acc, bound := DeserializeChildren(kids.value, go);
      want := DescribeAll(kids.value, Items(kids.value));
    }
    gs := Shape(acc.kids[go := list], acc.rank[go := bound]);
    AddBuilt(acc, go, list, bound, want);
    DescribeBuilt(j, go, want);
  }

  /** An object made from a node, whose children read as the node's children, reads as the node. */
  lemma DescribeBuilt(j: Json, go: GameObject, want: seq<Node>)
    requires go.name == NameOf(j) && go.active == ActiveOf(j)
    requires (IndexOfType(go.components, Transform) >= 0) == HasTransform(j)
    requires want == (var kids := Get(j, "children"); if kids.Some? then DescribeAll(kids.value, Items(kids.value)) else [])
    ensures Node(go.name, go.active, IndexOfType(go.components, Transform) >= 0, want) == Describe(j)
  {
  }

  /** A new object whose children are built objects of a shape, ranked above them, tops that shape. */
  lemma AddBuilt(acc: Shape, go: GameObject, list: seq<GameObject>, bound: nat, want: seq<Node>)
    requires Built(list, acc, bound, want) && go !in acc.kids && go.children == list && |list| == |want|
    ensures var gs := Shape(acc.kids[go := list], acc.rank[go := bound]);
      Tight(gs) && Mirrors(gs) && go in gs.kids
      && Snapshot(go, gs) == Node(go.name, go.active, IndexOfType(go.components, Transform) >= 0, want)
  {
    var gs := Shape(acc.kids[go := list], acc.rank[go := bound]);
    AddTop(acc, go, list, bound);
    forall i | 0 <= i < |list|
      ensures Snapshot(list[i], gs) == want[i]
    {
      SnapshotInLarger(list[i], acc, gs);
    }
    assert SnapshotAll(list, gs, bound) == want;
  }

  /**
   * The part of DeserializeGameObject before the children: the object is
   * created with its name, attached to `parent`, given its active flag and,
   * when the node records one, a transform.
   */
  method NewGameObject(j: Json, parent: GameObject) returns (go: GameObject)
    modifies parent`children
    ensures fresh(go) && go.parent == parent && parent.children == old(parent.children) + [go] && go.children == []
    ensures go.name == NameOf(j) && go.active == ActiveOf(j)
    ensures (IndexOfType(go.components, Transform) >= 0) == HasTransform(j)
  {
    go := new GameObject(NameOf(j));
    go.SetParent(parent);
    parent.AddChild(go);
    var active := Get(j, "active");
    if active.Some? && active.value.Bool? {
      ghost var alone := Shape(map[go := []], map[go := 0]);
      assert Subtree(go, alone) == {go};
      go.SetActive(active.value.b, alone);
    }
    if HasTransform(j) {
      var t := go.GetComponent(Transform);
      if t == null {
        t := go.AddComponent(Transform);
      }
    }
  }

  /**
   * The loops over "children" and over "gameObjects": each item is
   * deserialised under `parent`, in order. `kids` are the objects built,
   * and `acc` a shape of everything built.
   */
  method DeserializeChildren(c: Json, parent: GameObject) returns (ghost kids: seq<GameObject>, ghost acc: Shape, ghost bound: nat)
    modifies parent`children
    ensures parent.children == old(parent.children) + kids
    ensures |kids| == |Items(c)| && Built(kids, acc, bound, DescribeAll(c, Items(c)))
    ensures forall m :: m in acc.kids ==> fresh(m)
    decreases c, 2
  {
    var items := Items(c);
    ghost var want := DescribeAll(c, items);
    kids, acc, bound := [], Shape(map[], map[]), 0;
    var i := 0;
    while i < |items|
      invariant 0 <= i <= |items| && |kids| == i
      invariant parent.children == old(parent.children) + kids
      invariant Built(kids, acc, bound, want) && forall m :: m in acc.kids ==> fresh(m)
    {
      var child;
      child, acc, bound := DeserializeNext(c, items[i], want, parent, kids, acc, bound);
      kids := kids + [child];
      i := i + 1;
    }
  }

  /**
   * The state of the loop in DeserializeChildren: `kids` are the first
   * objects built, each reading as the matching entry of `want`, within a
   * shape `acc` of everything built.
   */
  ghost predicate Built(kids: seq<GameObject>, acc: Shape, bound: nat, want: seq<Node>)
    reads acc.kids.Keys`name, acc.kids.Keys`active, acc.kids.Keys`components, acc.kids.Keys`children
  {
    Tight(acc) && Mirrors(acc) && |kids| <= |want|
    && forall k :: 0 <= k < |kids| ==>
      kids[k] in acc.kids && acc.rank[kids[k]] < bound && Snapshot(kids[k], acc) == want[k]
  }

  /** One pass of the loop in DeserializeChildren: the next item is built under `parent`. */
  method DeserializeNext(c: Json, item: Json, ghost want: seq<Node>, parent: GameObject, ghost kids: seq<GameObject>, ghost acc: Shape, ghost bound: nat)
    returns (child: GameObject, ghost acc': Shape, ghost bound': nat)
    requires |kids| < |want| && want[|kids|] == Describe(item) && (item < c || item == c)
    requires Built(kids, acc, bound, want) && parent !in acc.kids
    modifies parent`children
    ensures parent.children == old(parent.children) + [child]
    ensures Built(kids + [child], acc', bound', want) && forall m :: m in acc'.kids ==> m in acc.kids || fresh(m)
    decreases c, 1
  {
    ghost var sub;
    child, sub := DeserializeGameObject(item, parent);
    assert Built(kids, acc, bound, want);
    assert acc.kids.Keys !! sub.kids.Keys;
    bound' := if sub.rank[child] + 1 > bound then sub.rank[child] + 1 else bound;
    AppendBuilt(acc, sub, kids, child, want, bound, bound');
    acc' := Shape(acc.kids + sub.kids, acc.rank + sub.rank);
  }

  /** One more built object, with its own shape, joins the objects built so far. */
  lemma AppendBuilt(acc: Shape, sub: Shape, kids: seq<GameObject>, child: GameObject, want: seq<Node>, bound: nat, b: nat)
    requires Built(kids, acc, bound, want) && Tight(sub) && Mirrors(sub) && acc.kids.Keys !! sub.kids.Keys
    requires |kids| < |want| && child in sub.kids && Snapshot(child, sub) == want[|kids|]
    requires bound <= b && sub.rank[child] < b
    ensures Built(kids + [child], Shape(acc.kids + sub.kids, acc.rank + sub.rank), b, want)
  {
    var next := Shape(acc.kids + sub.kids, acc.rank + sub.rank);
    var all := kids + [child];
    Merge(acc, sub);
    forall k | 0 <= k < |all|
      ensures all[k] in next.kids && next.rank[all[k]] < b && Snapshot(all[k], next) == want[k]
    {
      if k < |kids| {
        assert all[k] == kids[k];
        SnapshotInLarger(kids[k], acc, next);
      } else {
        assert all[k] == child;
        SnapshotInLarger(child, sub, next);
      }
    }
  }

  /**
   * SceneSerializer::LoadScene: a file that does not open changes nothing;
   * otherwise every entry under "gameObjects" is built under the root,
   * after its existing children, which stay.
   */
  method LoadScene(file: Option<Json>, root: GameObject) returns (ghost kids: seq<GameObject>, ghost acc: Shape)
    modifies root`children
    ensures file.None? || !Contains(file.value, "gameObjects") ==> root.children == old(root.children) && kids == []
    ensures file.Some? && Contains(file.value, "gameObjects") ==>
      var entries := Items(Get(file.value, "gameObjects").value);
      root.children == old(root.children) + kids
      && Tight(acc) && Mirrors(acc) && (forall m :: m in acc.kids ==> fresh(m))
      && |kids| == |entries|
      && forall i :: 0 <= i < |kids| ==> kids[i] in acc.kids && Snapshot(kids[i], acc) == Describe(entries[i])
  {
    kids, acc := [], Shape(map[], map[]);
    if file.None? {
      return;
    }
    var scene := file.value;
    if Contains(scene, "gameObjects") {
      ghost var bound;
      kids, acc, bound := DeserializeChildren(Get(scene, "gameObjects").value, root);
    }
  }

  /** A saved scene lists one entry per child of the root, each reading back as that child's tree. */
  lemma SaveSceneEntries(root: GameObject, g: Shape)
    requires WellRanked(g) && Mirrors(g) && root in g.kids
    ensures var j := SaveScene(root, g);
      Contains(j, "gameObjects") && ReadsBack(Items(Get(j, "gameObjects").value), root.children, g)
  {
    var entries := SerializeAll(root.children, g, g.rank[root]);
    SaveSceneLists(root, g);
    forall i | 0 <= i < |entries|
      ensures Describe(entries[i]) == Snapshot(root.children[i], g)
    {
      SerializeAllEntries(root.children, g, g.rank[root]);
      DescribeSerialized(root.children[i], g);
    }
  }

  /** Each entry of `entries` reads back as the tree of the matching object of `objs` in `g`. */
  ghost predicate ReadsBack(entries: seq<Json>, objs: seq<GameObject>, g: Shape)
    reads g.kids.Keys`name, g.kids.Keys`active, g.kids.Keys`components
  {
    WellRanked(g) && |entries| == |objs|
    && forall i :: 0 <= i < |objs| ==> objs[i] in g.kids && Describe(entries[i]) == Snapshot(objs[i], g)
  }

  /** The "gameObjects" member of a saved scene is the children loop over the root. */
  lemma SaveSceneLists(root: GameObject, g: Shape)
    requires WellRanked(g) && Mirrors(g) && root in g.kids
    ensures Get(SaveScene(root, g), "gameObjects") == Some(Arr(SerializeAll(root.children, g, g.rank[root])))
  {
    var j := SaveScene(root, g);
    assert "name" != "gameObjects" && Find(j.members, "gameObjects") == 1;
  }

}
