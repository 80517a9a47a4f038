/**
 * The broad-phase quadtree of common/quadtree.js. A node covers a
 * rectangle; it keeps objects directly until it holds more than seven and
 * is above the deepest level, then splits into four children and moves
 * every object that fits one quadrant down. Objects are the boxes the
 * tree is asked to store (`getAABB` of an entity), each with an identifier.
 */
module QuadTrees {
  import opened Geometry
  import opened Wrappers
  import opened EntityLists
  import opened Physics

  /** `MAX_OBJECTS`: a node splits once it holds more than this many objects. */
  const MaxObjects: int := 7

  /** `MAX_LEVELS`: a node at this level or deeper never splits. */
  const MaxLevels: int := 10

  /** The rectangle `{x, y, width, height}` a node covers. */
  datatype Bounds = Bounds(x: real, y: real, width: real, height: real)

  /** A stored object: an identifier and its world box. */
  datatype Item = Item(id: int, box: AABB)

  /** The vertical line `getIndex` compares against. */
  function VerticalMidpoint(b: Bounds): real {
    b.x + b.width / 2.0
  }

  /** The horizontal line `getIndex` compares against: `y - height / 2`. */
  function HorizontalMidpoint(b: Bounds): real {
    b.y - b.height / 2.0
  }

  /**
   * `getIndex`: the quadrant a box lies strictly inside (0 right-top,
   * 1 left-top, 2 left-bottom, 3 right-bottom, "top" meaning above the
   * horizontal midpoint), or -1 when it touches or crosses a midpoint.
   */
  function GetIndex(b: Bounds, box: AABB): (index: int)
    ensures -1 <= index <= 3
  {
    var top := box.min.y > HorizontalMidpoint(b);
    var bottom := box.max.y < HorizontalMidpoint(b);
    if box.max.x < VerticalMidpoint(b) then
      (if top then 1 else if bottom then 2 else -1)
    else if box.min.x > VerticalMidpoint(b) then
      (if top then 0 else if bottom then 3 else -1)
    else -1
  }

  /**
   * A box gets a quadrant exactly when it is strictly to one side of the
   * vertical midpoint and strictly to one side of the horizontal one.
   */
  lemma GetIndexStrict(b: Bounds, box: AABB)
    ensures GetIndex(b, box) != -1 <==>
              (box.max.x < VerticalMidpoint(b) || box.min.x > VerticalMidpoint(b)) &&
              (box.min.y > HorizontalMidpoint(b) || box.max.y < HorizontalMidpoint(b))
  {
  }

  /** A well-formed box that touches or crosses either midpoint stays at the node. */
  lemma TouchingMidpointStays(b: Bounds, box: AABB)
    requires WellFormed(box)
    requires (box.min.x <= VerticalMidpoint(b) <= box.max.x) || (box.min.y <= HorizontalMidpoint(b) <= box.max.y)
    ensures GetIndex(b, box) == -1
  {
  }

  /** Boxes in two different quadrants of a node never collide. */
  lemma DifferentQuadrantsApart(b: Bounds, p: AABB, q: AABB)
    requires GetIndex(b, p) != -1 && GetIndex(b, q) != -1 && GetIndex(b, p) != GetIndex(b, q)
    ensures !IsAABBColliding(p, q)
  {
  }

  /** The rectangle `split` gives child `k`: half the width and height, offset by them. */
  function Quadrant(b: Bounds, k: int): (q: Bounds)
    ensures q.width == b.width / 2.0 && q.height == b.height / 2.0
  {
    var w := b.width / 2.0;
    var h := b.height / 2.0;
    if k == 0 then Bounds(b.x + w, b.y, w, h)
    else if k == 1 then Bounds(b.x, b.y, w, h)
    else if k == 2 then Bounds(b.x, b.y + h, w, h)
    else Bounds(b.x + w, b.y + h, w, h)
  }

  /**
   * `split` places the lower children at `y + height / 2`, while `getIndex`
   * divides at `y - height / 2`: for a node of positive height the two lines
   * differ.
   */
  lemma SplitLineIsNotTheMidpoint(b: Bounds)
    requires b.height > 0.0
    ensures Quadrant(b, 2).y != HorizontalMidpoint(b) && Quadrant(b, 3).y != HorizontalMidpoint(b)
  {
  }

  /**
   * A quadtree node: its depth, the rectangle it covers, its child slots
   * (`null` until `split` fills them, `null` again after `clear`) and the
   * objects it keeps itself.
   */
  datatype Node = Node(level: int, bounds: Bounds, nodes: seq<Option<Node>>, objects: seq<Item>)

  /** `if (this.nodes[0])`: the node has been split and not cleared since. */
  predicate HasChildren(t: Node) {
    |t.nodes| > 0 && t.nodes[0].Some?
  }

  /** All four child slots are filled. */
  predicate Full(t: Node) {
    |t.nodes| == 4 && t.nodes[0].Some? && t.nodes[1].Some? && t.nodes[2].Some? && t.nodes[3].Some?
  }

  /** No child slots or four of them, either all filled or all empty. */
  predicate Shaped(t: Node) {
    && (|t.nodes| == 0 || |t.nodes| == 4)
    && (HasChildren(t) ==> Full(t))
    && (!HasChildren(t) ==> forall k :: 0 <= k < |t.nodes| ==> t.nodes[k].None?)
  }

  /** Every object of `s` lies strictly inside quadrant `k` of `b`. */
  ghost predicate InQuadrant(s: seq<Item>, b: Bounds, k: int) {
    forall x :: x in s ==> GetIndex(b, x.box) == k
  }

  /** Every object of `s` touches or crosses a midpoint of `b`. */
  ghost predicate AllStraddle(s: seq<Item>, b: Bounds) {
    forall x :: x in s ==> GetIndex(b, x.box) == -1
  }

  /** Every object stored in the subtree: the node's own, then each child's in turn. */
  ghost function Contents(t: Node): seq<Item>
    decreases t, 1
  {
    t.objects + Below(t)
  }

  /** The objects stored below a node, child by child. */
  ghost function Below(t: Node): seq<Item>
    decreases t, 0
  {
    if Full(t) then
      Contents(t.nodes[0].value) + Contents(t.nodes[1].value) + Contents(t.nodes[2].value) + Contents(t.nodes[3].value)
    else []
  }

  /**
   * The tree invariant: a split node is above the deepest level and keeps
   * only the objects that straddle its midpoints, and each child is a
   * valid subtree one level down, covering its quadrant and holding only
   * objects that lie in that quadrant of the parent.
   */
  ghost predicate Valid(t: Node)
    decreases t, 1
  {
    && Shaped(t)
    && (HasChildren(t) ==>
          t.level < MaxLevels && AllStraddle(t.objects, t.bounds) &&
          ValidChild(t, 0) && ValidChild(t, 1) && ValidChild(t, 2) && ValidChild(t, 3))
  }

  /** Child `k` of a split node is a valid subtree for quadrant `k`. */
  ghost predicate ValidChild(t: Node, k: int)
    requires Full(t) && 0 <= k < 4
    decreases t, 0
  {
    var c := t.nodes[k].value;
    c.level == t.level + 1 && c.bounds == Quadrant(t.bounds, k) &&
    InQuadrant(Contents(c), t.bounds, k) && Valid(c)
  }

  /** A split node whose children are valid, whatever its own objects. */
  ghost predicate SplitNode(t: Node) {
    Shaped(t) && HasChildren(t) && t.level < MaxLevels &&
    ValidChild(t, 0) && ValidChild(t, 1) && ValidChild(t, 2) && ValidChild(t, 3)
  }

  /** The number of levels below a node. */
  ghost function Height(t: Node): nat
    decreases t
  {
    if Full(t) then
      1 + MaxNat(MaxNat(Height(t.nodes[0].value), Height(t.nodes[1].value)),
                 MaxNat(Height(t.nodes[2].value), Height(t.nodes[3].value)))
    else 0
  }

  function MaxNat(a: nat, b: nat): nat { if a < b then b else a }

  /**
   * The depth bound: in a valid tree no node below a split node is deeper
   * than `MaxLevels`.
   */
  lemma {:induction false} DepthBound(t: Node)
    requires Valid(t)
    ensures Height(t) == 0 || t.level + Height(t) <= MaxLevels
    decreases t
  {
    if Full(t) {
      assert ValidChild(t, 0) && ValidChild(t, 1) && ValidChild(t, 2) && ValidChild(t, 3);
      DepthBound(t.nodes[0].value);
      DepthBound(t.nodes[1].value);
      DepthBound(t.nodes[2].value);
      DepthBound(t.nodes[3].value);
    }
  }

  /** `new QuadTree(level, bounds)`: a leaf with no child slots and no objects. */
  function NewNode(level: int, bounds: Bounds): (t: Node)
    ensures Valid(t) && Contents(t) == [] && !HasChildren(t)
    ensures t.level == level && t.bounds == bounds
  {
    Node(level, bounds, [], [])
  }

  /**
   * `split`: four empty children one level down, one per quadrant in the
   * order right-top, left-top, left-bottom, right-bottom, each half as
   * wide and half as high; the node's own objects stay where they are.
   */
  function Split(t: Node): (r: Node)
    ensures Full(r) && r.level == t.level && r.bounds == t.bounds && r.objects == t.objects
    ensures forall k :: 0 <= k < 4 ==>
              r.nodes[k].value.level == t.level + 1 &&
              r.nodes[k].value.bounds.width == t.bounds.width / 2.0 &&
              r.nodes[k].value.bounds.height == t.bounds.height / 2.0 &&
              Valid(r.nodes[k].value) && Contents(r.nodes[k].value) == []
  {
    t.(nodes := [Some(NewNode(t.level + 1, Quadrant(t.bounds, 0))), Some(NewNode(t.level + 1, Quadrant(t.bounds, 1))),
                 Some(NewNode(t.level + 1, Quadrant(t.bounds, 2))), Some(NewNode(t.level + 1, Quadrant(t.bounds, 3)))])
  }

  /** Splitting a node above the deepest level stores nothing new below it. */
  lemma SplitHoldsNothingBelow(t: Node)
    requires t.level < MaxLevels && !HasChildren(t)
    ensures SplitNode(Split(t)) && Below(Split(t)) == [] && Contents(Split(t)) == Contents(t)
  {
    var r := Split(t);
    assert Contents(r.nodes[0].value) == [] && Contents(r.nodes[1].value) == [];
    assert Contents(r.nodes[2].value) == [] && Contents(r.nodes[3].value) == [];
  }

  /** Splicing one element out keeps the others, as a multiset. */
  lemma MultisetRemoveAt(s: seq<Item>, i: nat)
    requires i < |s|
    ensures multiset(RemoveAt(s, i)) + multiset{s[i]} == multiset(s)
  {
    assert s == s[..i] + [s[i]] + s[i + 1..];
  }

  /**
   * Replacing child `k` of a split node by a valid subtree that holds the
   * old child's objects and one more, which lies in quadrant `k`, keeps
   * the children valid and adds that object below the node.
   */
  lemma ReplaceChild(t: Node, k: int, c: Node, it: Item)
    requires SplitNode(t) && 0 <= k < 4 && GetIndex(t.bounds, it.box) == k
    requires Valid(c) && c.level == t.level + 1 && c.bounds == Quadrant(t.bounds, k)
    requires multiset(Contents(c)) == multiset(Contents(t.nodes[k].value)) + multiset{it}
    ensures SplitNode(t.(nodes := t.nodes[k := Some(c)]))
    ensures multiset(Below(t.(nodes := t.nodes[k := Some(c)]))) == multiset(Below(t)) + multiset{it}
  {
    var r := t.(nodes := t.nodes[k := Some(c)]);
    assert ValidChild(t, k);
    forall x | x in Contents(c)
      ensures GetIndex(t.bounds, x.box) == k
    {
      assert x in multiset(Contents(c));
    }
    assert ValidChild(r, k);
    var before := [Contents(t.nodes[0].value), Contents(t.nodes[1].value), Contents(t.nodes[2].value), Contents(t.nodes[3].value)];
    var after := [Contents(r.nodes[0].value), Contents(r.nodes[1].value), Contents(r.nodes[2].value), Contents(r.nodes[3].value)];
    AddToOne(before, after, k, it);
  }

  /**
   * The same replacement in a valid split node: the node stays valid and
   * stores exactly one object more.
   */
  lemma ReplaceChildOfValid(t: Node, k: int, c: Node, it: Item)
    requires Valid(t) && HasChildren(t) && 0 <= k < 4 && GetIndex(t.bounds, it.box) == k
    requires Valid(c) && c.level == t.level + 1 && c.bounds == Quadrant(t.bounds, k)
    requires multiset(Contents(c)) == multiset(Contents(t.nodes[k].value)) + multiset{it}
    ensures Valid(t.(nodes := t.nodes[k := Some(c)]))
    ensures multiset(Contents(t.(nodes := t.nodes[k := Some(c)]))) == multiset(Contents(t)) + multiset{it}
  {
    ReplaceChild(t, k, c, it);
    Settled(t.(nodes := t.nodes[k := Some(c)]));
  }

  /** A split node with valid children whose own objects all straddle its midpoints is valid. */
  lemma Settled(t: Node)
    requires SplitNode(t) && AllStraddle(t.objects, t.bounds)
    ensures Valid(t) && HasChildren(t)
  {
  }

  /**
   * Handing an object of a split node's own list down to child `k`, which
   * now holds it besides what it held, keeps the children valid, keeps the
   * objects before it in place, and loses or duplicates nothing.
   */
  lemma MoveDown(t: Node, i: nat, k: int, c: Node)
    requires SplitNode(t) && i < |t.objects| && 0 <= k < 4 && GetIndex(t.bounds, t.objects[i].box) == k
    requires Valid(c) && c.level == t.level + 1 && c.bounds == Quadrant(t.bounds, k)
    requires multiset(Contents(c)) == multiset(Contents(t.nodes[k].value)) + multiset{t.objects[i]}
    ensures SplitNode(t.(objects := RemoveAt(t.objects, i), nodes := t.nodes[k := Some(c)]))
    ensures multiset(Contents(t.(objects := RemoveAt(t.objects, i), nodes := t.nodes[k := Some(c)]))) == multiset(Contents(t))
    ensures RemoveAt(t.objects, i)[..i] == t.objects[..i]
  {
    var it := t.objects[i];
    ReplaceChild(t, k, c, it);
    var u := t.(nodes := t.nodes[k := Some(c)]);
    var r := t.(objects := RemoveAt(t.objects, i), nodes := t.nodes[k := Some(c)]);
    assert SplitNode(r) by {
      assert r.nodes == u.nodes;
      assert ValidChild(r, 0) == ValidChild(u, 0) && ValidChild(r, 1) == ValidChild(u, 1);
      assert ValidChild(r, 2) == ValidChild(u, 2) && ValidChild(r, 3) == ValidChild(u, 3);
    }
    assert Below(r) == Below(u);
    MultisetRemoveAt(t.objects, i);
  }

  /**
   * Keeping one more object at a node is valid when the node is a leaf or
   * the object straddles its midpoints, and stores exactly that object more.
   */
  lemma KeepObject(t: Node, it: Item)
    requires Valid(t) && (HasChildren(t) ==> GetIndex(t.bounds, it.box) == -1)
    ensures Valid(t.(objects := t.objects + [it]))
    ensures multiset(Contents(t.(objects := t.objects + [it]))) == multiset(Contents(t)) + multiset{it}
  {
    var r := t.(objects := t.objects + [it]);
    assert Below(r) == Below(t);
    assert Contents(r) == (t.objects + [it]) + Below(t);
    assert Contents(t) == t.objects + Below(t);
    if HasChildren(t) {
      assert AllStraddle(r.objects, r.bounds);
      assert ValidChild(r, 0) == ValidChild(t, 0) && ValidChild(r, 1) == ValidChild(t, 1);
      assert ValidChild(r, 2) == ValidChild(t, 2) && ValidChild(r, 3) == ValidChild(t, 3);
    }
  }

  /** Adding an object to one of four lists adds it to their concatenation, as a multiset. */
  lemma AddToOne(before: seq<seq<Item>>, after: seq<seq<Item>>, index: int, it: Item)
    requires |before| == 4 && |after| == 4 && 0 <= index < 4
    requires multiset(after[index]) == multiset(before[index]) + multiset{it}
    requires forall k :: 0 <= k < 4 && k != index ==> after[k] == before[k]
    ensures multiset(after[0] + after[1] + after[2] + after[3]) == multiset(before[0] + before[1] + before[2] + before[3]) + multiset{it}
  {
  }

  /**
   * `insert`: a split node hands an object that lies in a quadrant to that
   * child and keeps its own objects as they are; otherwise the node keeps
   * the object and, once it holds more than `MaxObjects` above the
   * deepest level, splits if it has not yet and moves every object that
   * lies in a quadrant down to that child. No object is lost or
   * duplicated, and the tree stays valid.
   */
  method Insert(t: Node, item: Item) returns (r: Node)
    requires Valid(t)
    ensures Valid(r) && r.level == t.level && r.bounds == t.bounds
    ensures multiset(Contents(r)) == multiset(Contents(t)) + multiset{item}
    ensures HasChildren(t) && GetIndex(t.bounds, item.box) != -1 ==> r.objects == t.objects
    ensures !HasChildren(t) && (|t.objects| < MaxObjects || t.level >= MaxLevels) ==> r == t.(objects := t.objects + [item])
    ensures HasChildren(r) && !HasChildren(t) ==> |t.objects| >= MaxObjects && t.level < MaxLevels
    decreases MaxLevels - t.level, 1
  {
    if HasChildren(t) {
      var index := GetIndex(t.bounds, item.box);
      if index != -1 {
        assert ValidChild(t, index);
        var c := Insert(t.nodes[index].value, item);
        ReplaceChildOfValid(t, index, c, item);
        r := t.(nodes := t.nodes[index := Some(c)]);
        return;
      }
    }
    KeepObject(t, item);
    r := t.(objects := t.objects + [item]);
    if |r.objects| > MaxObjects && r.level < MaxLevels {
      if !HasChildren(r) {
        SplitHoldsNothingBelow(r);
        r := Split(r);
      }
      r := Redistribute(r);
    }
  }

  /**
   * The loop at the end of `insert`: every object of a split node that
   * lies in a quadrant is spliced out and inserted into that child; the
   * ones that straddle a midpoint stay, in their order.
   */
  method Redistribute(t: Node) returns (r: Node)
    requires SplitNode(t)
    ensures Valid(r) && HasChildren(r) && r.level == t.level && r.bounds == t.bounds
    ensures multiset(Contents(r)) == multiset(Contents(t))
    decreases MaxLevels - t.level, 0
  {
    r := t;
    var i := 0;
    while i < |r.objects|
      invariant SplitNode(r) && r.level == t.level && r.bounds == t.bounds
      invariant 0 <= i <= |r.objects|
      invariant AllStraddle(r.objects[..i], r.bounds)
      invariant multiset(Contents(r)) == multiset(Contents(t))
      decreases |r.objects| - i
    {
      var index := GetIndex(r.bounds, r.objects[i].box);
      if index != -1 {
        assert ValidChild(r, index);
        var c := Insert(r.nodes[index].value, r.objects[i]);
        MoveDown(r, i, index, c);
        r := r.(objects := RemoveAt(r.objects, i), nodes := r.nodes[index := Some(c)]);
      } else {
        assert r.objects[..i + 1] == r.objects[..i] + [r.objects[i]];
        i := i + 1;
      }
    }
    assert r.objects[..i] == r.objects;
    Settled(r);
  }

  /**
   * `clear`: the node drops its own objects and empties every child slot,
   * keeping the number of slots; the tree it leaves stores nothing.
   */
  method Clear(t: Node) returns (r: Node)
    ensures r.objects == [] && |r.nodes| == |t.nodes| && forall k :: 0 <= k < |r.nodes| ==> r.nodes[k].None?
    ensures r.level == t.level && r.bounds == t.bounds
    ensures Contents(r) == [] && ((|t.nodes| == 0 || |t.nodes| == 4) ==> Valid(r))
  {
    r := t.(objects := []);
    for index := 0 to |r.nodes|
      invariant r.objects == [] && |r.nodes| == |t.nodes| && r.level == t.level && r.bounds == t.bounds
      invariant forall k :: 0 <= k < index ==> r.nodes[k].None?
    {
      if r.nodes[index].Some? {
        r := r.(nodes := r.nodes[index := None]);
      }
    }
  }

  /**
   * `_internalRetrieve`: appends to `acc` what the child whose quadrant
   * holds the query retrieves, when the node is split and the query lies
   * in a quadrant, and then the node's own objects. Everything it appends
   * is stored in the subtree, and the node's own objects come last.
   */
  function InternalRetrieve(t: Node, box: AABB, acc: seq<Item>): (r: seq<Item>)
    requires Valid(t)
    ensures |r| >= |acc| + |t.objects| && r[..|acc|] == acc && r[|r| - |t.objects|..] == t.objects
    ensures forall x :: x in r ==> x in acc || x in Contents(t)
    decreases t
  {
    var index := GetIndex(t.bounds, box);
    var found :=
      if index != -1 && HasChildren(t) then
        assert ValidChild(t, index);
        InternalRetrieve(t.nodes[index].value, box, acc)
      else acc;
    found + t.objects
  }

  /** `retrieve`: what `_internalRetrieve` collects into an empty list. */
  function Retrieve(t: Node, box: AABB): (r: seq<Item>)
    requires Valid(t)
    ensures forall x :: x in r ==> x in Contents(t)
    ensures |r| >= |t.objects| && r[|r| - |t.objects|..] == t.objects
  {
    InternalRetrieve(t, box, [])
  }

  /** At every split node on the way down, the query lies inside one quadrant. */
  ghost predicate Descends(t: Node, box: AABB)
    decreases t
  {
    Full(t) ==> GetIndex(t.bounds, box) != -1 && Descends(t.nodes[GetIndex(t.bounds, box)].value, box)
  }

  /**
   * A stored object that lies in quadrant `k` of a split node's bounds is
   * the node's own or is stored in child `k`.
   */
  lemma StoredBelow(t: Node, x: Item)
    requires Valid(t) && HasChildren(t) && x in Contents(t) && x !in t.objects
    ensures GetIndex(t.bounds, x.box) != -1 && x in Contents(t.nodes[GetIndex(t.bounds, x.box)].value)
  {
    assert ValidChild(t, 0) && ValidChild(t, 1) && ValidChild(t, 2) && ValidChild(t, 3);
  }

  /**
   * When the query never straddles the midpoints of a split node on its
   * way down, `_internalRetrieve` finds every stored object it collides
   * with: an object in another quadrant of a node cannot touch it.
   */
  lemma {:induction false} RetrieveCompleteWhenDescending(t: Node, box: AABB, acc: seq<Item>, x: Item)
    requires Valid(t) && Descends(t, box) && x in Contents(t) && IsAABBColliding(x.box, box)
    ensures x in InternalRetrieve(t, box, acc)
    decreases t
  {
    var r := InternalRetrieve(t, box, acc);
    if x in t.objects {
      assert x in r[|r| - |t.objects|..];
    } else {
      StoredBelow(t, x);
      var k := GetIndex(t.bounds, x.box);
      var j := GetIndex(t.bounds, box);
      if k != j {
        DifferentQuadrantsApart(t.bounds, x.box, box);
      }
      assert ValidChild(t, k);
      RetrieveCompleteWhenDescending(t.nodes[k].value, box, acc, x);
    }
  }

  /**
   * As written, a query that straddles the midpoints of a split node gets
   * that node's own objects and nothing from below it.
   */
  lemma StraddlingQueryStops(t: Node, box: AABB, acc: seq<Item>)
    requires Valid(t) && HasChildren(t) && GetIndex(t.bounds, box) == -1
    ensures InternalRetrieve(t, box, acc) == acc + t.objects
  {
  }

  /**
   * A split root holding one object in its right-top child: a query box
   * that crosses the vertical midpoint collides with it, yet `retrieve`
   * does not return it.
   */
  lemma StraddlingQueryMissesCollidingObject()
    ensures var b := Bounds(0.0, 0.0, 8.0, 8.0);
            var hit := Item(1, AABB(Vec(5.0, -3.0), Vec(6.0, -2.0)));
            var query := AABB(Vec(3.0, -3.0), Vec(5.5, -2.0));
            var t := Node(0, b, [Some(Node(1, Quadrant(b, 0), [], [hit])), Some(NewNode(1, Quadrant(b, 1))),
                                 Some(NewNode(1, Quadrant(b, 2))), Some(NewNode(1, Quadrant(b, 3)))], []);
            Valid(t) && hit in Contents(t) && IsAABBColliding(hit.box, query) &&
            hit !in Retrieve(t, query) && hit in Candidates(t, query)
  {
    var b := Bounds(0.0, 0.0, 8.0, 8.0);
    var hit := Item(1, AABB(Vec(5.0, -3.0), Vec(6.0, -2.0)));
    var query := AABB(Vec(3.0, -3.0), Vec(5.5, -2.0));
    var c0 := Node(1, Quadrant(b, 0), [], [hit]);
    var t := Node(0, b, [Some(c0), Some(NewNode(1, Quadrant(b, 1))),
                         Some(NewNode(1, Quadrant(b, 2))), Some(NewNode(1, Quadrant(b, 3)))], []);
    assert Contents(c0) == [hit];
    assert ValidChild(t, 0) && ValidChild(t, 1) && ValidChild(t, 2) && ValidChild(t, 3);
    assert Valid(t);
    assert hit in Contents(t);
    assert GetIndex(b, query) == -1;
    StraddlingQueryStops(t, query, []);
    CandidatesComplete(t, query, hit);
  }

  /**
   * The retrieval a broad phase needs: under a split node, a query in one
   * quadrant searches that child, and a query that straddles the
   * midpoints searches all four; then the node's own objects.
   */
  function Candidates(t: Node, box: AABB): (r: seq<Item>)
    requires Valid(t)
    ensures forall x :: x in r ==> x in Contents(t)
    ensures |r| >= |t.objects| && r[|r| - |t.objects|..] == t.objects
    decreases t
  {
    var index := GetIndex(t.bounds, box);
    var below :=
      if !HasChildren(t) then []
      else if index != -1 then
        assert ValidChild(t, index);
        Candidates(t.nodes[index].value, box)
      else
        assert ValidChild(t, 0) && ValidChild(t, 1) && ValidChild(t, 2) && ValidChild(t, 3);
        Candidates(t.nodes[0].value, box) + Candidates(t.nodes[1].value, box) +
        Candidates(t.nodes[2].value, box) + Candidates(t.nodes[3].value, box);
    below + t.objects
  }

  /** `Candidates` finds every stored object the query box collides with. */
  lemma {:induction false} CandidatesComplete(t: Node, box: AABB, x: Item)
    requires Valid(t) && x in Contents(t) && IsAABBColliding(x.box, box)
    ensures x in Candidates(t, box)
    decreases t
  {
    var r := Candidates(t, box);
    if x in t.objects {
      assert x in r[|r| - |t.objects|..];
    } else {
      StoredBelow(t, x);
      var k := GetIndex(t.bounds, x.box);
      assert ValidChild(t, k);
      var c := t.nodes[k].value;
      if GetIndex(t.bounds, box) == -1 {
        CandidatesComplete(c, box, x);
        AllChildrenSearched(t, box, k);
      } else {
        if GetIndex(t.bounds, box) != k {
          DifferentQuadrantsApart(t.bounds, x.box, box);
        }
        CandidatesComplete(c, box, x);
        OneChildSearched(t, box);
      }
    }
  }

  /** A query inside one quadrant of a split node gets what that child's search gets. */
  lemma OneChildSearched(t: Node, box: AABB)
    requires Valid(t) && HasChildren(t) && GetIndex(t.bounds, box) != -1
    ensures Valid(t.nodes[GetIndex(t.bounds, box)].value)
    ensures forall x :: x in Candidates(t.nodes[GetIndex(t.bounds, box)].value, box) ==> x in Candidates(t, box)
  {
    assert ValidChild(t, GetIndex(t.bounds, box));
  }

  /** A query straddling a split node's midpoints gets what every child's search gets. */
  lemma AllChildrenSearched(t: Node, box: AABB, k: int)
    requires Valid(t) && HasChildren(t) && GetIndex(t.bounds, box) == -1 && 0 <= k < 4
    ensures Valid(t.nodes[k].value)
    ensures forall x :: x in Candidates(t.nodes[k].value, box) ==> x in Candidates(t, box)
  {
    assert ValidChild(t, 0) && ValidChild(t, 1) && ValidChild(t, 2) && ValidChild(t, 3);
  }
}
