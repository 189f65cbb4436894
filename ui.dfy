/**
  The `UI` helpers that validate a widget tree: the up-walks
  `validateAllUp`/`revalidateAllUp` (from the deepest containers towards the
  root, so that children are sized before their parents) and the top-down
  `validateDown`. The tree is a map from node identities to what the walks
  read of each widget; what the walks do is recorded as the sequence of
  `invalidate`/`validate` calls they make.
*/
module Revalidation {
  import opened JavaLang

  /** The identity of a widget. */
  type Node = nat

  /**
    What the walks read of a widget: whether it is a container, its parent
    and its children. `depth` and `height` are measures only: a parent is
    shallower and higher than each of its children.
  */
  datatype Widget = Widget(isContainer: bool, parent: Option<Node>, children: seq<Node>, depth: nat, height: nat)

  type Tree = map<Node, Widget>

  /** One call the walks make on a container. */
  datatype Call = Invalidate(node: Node) | Validate(node: Node)

  /** The links around `n` agree: its parent is a container above it, and its children point back at it. */
  ghost predicate Linked(t: Tree, n: Node)
    requires n in t
  {
    (t[n].parent.Some? ==>
       t[n].parent.value in t && t[t[n].parent.value].isContainer &&
       t[t[n].parent.value].depth < t[n].depth && t[n].height < t[t[n].parent.value].height) &&
    (!t[n].isContainer ==> t[n].children == []) &&
    (forall c :: c in t[n].children ==> c in t && t[c].parent == Some(n))
  }

  /** What the toolkit keeps true of every widget in the tree. */
  ghost predicate WellFormed(t: Tree)
  {
    forall n {:trigger Linked(t, n)} :: n in t ==> Linked(t, n)
  }

  /** `n` is `a` or lies below it. */
  ghost predicate Descends(t: Tree, n: Node, a: Node)
    requires WellFormed(t) && n in t
    decreases t[n].depth
  {
    assert Linked(t, n);
    n == a || (t[n].parent.Some? && Descends(t, t[n].parent.value, a))
  }

  /** Where the walks start: the widget itself when it is a container, otherwise its parent. */
  function Start(t: Tree, comp: Node): (s: Option<Node>)
    requires WellFormed(t) && comp in t
    ensures s.Some? ==> s.value in t && t[s.value].isContainer
    ensures s.None? <==> !t[comp].isContainer && t[comp].parent.None?
    ensures s.Some? && s.value != comp ==> !t[comp].isContainer && t[comp].parent == s
  {
    assert Linked(t, comp);
    if t[comp].isContainer then Some(comp) else t[comp].parent
  }

  /** The position of the first container among `kids`, or `|kids|` when there is none. */
  function FirstContainer(t: Tree, kids: seq<Node>): (i: nat)
    requires forall k :: k in kids ==> k in t
    ensures i <= |kids|
    ensures i < |kids| ==> t[kids[i]].isContainer
    ensures forall k :: 0 <= k < i ==> !t[kids[k]].isContainer
  {
    if kids == [] then 0
    else if t[kids[0]].isContainer then 0
    else 1 + FirstContainer(t, kids[1..])
  }

  /** `findFurthestChildContainer`: descend into the first container child while there is one. */
  function Furthest(t: Tree, n: Node): Node
    requires WellFormed(t) && n in t
    decreases t[n].height
  {
    assert Linked(t, n);
    var kids := t[n].children;
    var i := FirstContainer(t, kids);
    if i == |kids| then n
    else
      assert Linked(t, kids[i]);
      Furthest(t, kids[i])
  }

  /** The furthest container below a container lies below it, is a container, and has no container child. */
  lemma {:induction false} FurthestIsLeaf(t: Tree, n: Node)
    requires WellFormed(t) && n in t && t[n].isContainer
    ensures Furthest(t, n) in t && t[Furthest(t, n)].isContainer && Descends(t, Furthest(t, n), n)
    ensures forall c :: c in t[Furthest(t, n)].children ==> c in t && !t[c].isContainer
    decreases t[n].height
  {
    assert Linked(t, n);
    var kids := t[n].children;
    var i := FirstContainer(t, kids);
    if i < |kids| {
      var c := kids[i];
      assert Linked(t, c);
      FurthestIsLeaf(t, c);
      DescendsThrough(t, Furthest(t, c), c, n);
    } else {
      forall c | c in kids
        ensures c in t && !t[c].isContainer
      {
        var k :| 0 <= k < |kids| && kids[k] == c;
      }
    }
  }

  /** Lying below lies below: from `x` under `y` and `y` one step under `a`, `x` is under `a`. */
  lemma {:induction false} DescendsThrough(t: Tree, x: Node, y: Node, a: Node)
    requires WellFormed(t) && x in t && y in t
    requires Descends(t, x, y) && t[y].parent == Some(a)
    ensures Descends(t, x, a)
    decreases t[x].depth
  {
    assert Linked(t, x);
    if x != y {
      DescendsThrough(t, t[x].parent.value, y, a);
    } else {
      assert Linked(t, y);
    }
  }

  /** The furthest container of each container among `kids`, in order. */
  function FurthestAll(t: Tree, kids: seq<Node>): seq<Node>
    requires WellFormed(t) && forall k :: k in kids ==> k in t
  {
    if kids == [] then []
    else
      var last := kids[|kids| - 1];
      FurthestAll(t, kids[..|kids| - 1]) + (if t[last].isContainer then [Furthest(t, last)] else [])
  }

  /** Every furthest container of children of `s` lies below `s`. */
  lemma {:induction false} FurthestAllBelow(t: Tree, s: Node, kids: seq<Node>)
    requires WellFormed(t) && s in t
    requires forall k :: k in kids ==> k in t && t[k].parent == Some(s)
    ensures forall f :: f in FurthestAll(t, kids) ==> f in t && Descends(t, f, s)
  {
    if kids != [] {
      var last := kids[|kids| - 1];
      FurthestAllBelow(t, s, kids[..|kids| - 1]);
      if t[last].isContainer {
        FurthestIsLeaf(t, last);
        DescendsThrough(t, Furthest(t, last), last, s);
      }
    }
  }

  /** The containers from `n` up to `stop`, excluding `stop`, bottom-up. */
  function ChainBelow(t: Tree, n: Node, stop: Node): seq<Node>
    requires WellFormed(t) && n in t && Descends(t, n, stop)
    decreases t[n].depth
  {
    assert Linked(t, n);
    if n == stop then [] else [n] + ChainBelow(t, t[n].parent.value, stop)
  }

  /** The chain below `stop` runs from `n` through parent after parent, each a container but `stop`, and ends just under `stop`. */
  lemma {:induction false} ChainBelowShape(t: Tree, n: Node, stop: Node)
    requires WellFormed(t) && n in t && Descends(t, n, stop)
    ensures ChainBelow(t, n, stop) == [] <==> n == stop
    ensures ChainBelow(t, n, stop) != [] ==> ChainBelow(t, n, stop)[0] == n
    ensures forall i :: 0 <= i < |ChainBelow(t, n, stop)| ==> ChainBelow(t, n, stop)[i] in t && ChainBelow(t, n, stop)[i] != stop
    ensures forall i :: 0 <= i < |ChainBelow(t, n, stop)| - 1 ==>
      t[ChainBelow(t, n, stop)[i]].parent == Some(ChainBelow(t, n, stop)[i + 1])
    ensures ChainBelow(t, n, stop) != [] ==> t[ChainBelow(t, n, stop)[|ChainBelow(t, n, stop)| - 1]].parent == Some(stop)
    decreases t[n].depth
  {
    assert Linked(t, n);
    if n != stop {
      ChainBelowShape(t, t[n].parent.value, stop);
    }
  }

  /** The containers from `n` up to the root, bottom-up. */
  function ChainToRoot(t: Tree, n: Node): seq<Node>
    requires WellFormed(t) && n in t
    decreases t[n].depth
  {
    assert Linked(t, n);
    [n] + if t[n].parent.None? then [] else ChainToRoot(t, t[n].parent.value)
  }

  /** The chains from each of `fs` up to `stop`, one after the other. */
  function Chains(t: Tree, fs: seq<Node>, stop: Node): seq<Node>
    requires WellFormed(t) && forall f :: f in fs ==> f in t && Descends(t, f, stop)
  {
    if fs == [] then []
    else Chains(t, fs[..|fs| - 1], stop) + ChainBelow(t, fs[|fs| - 1], stop)
  }

  /**
    The containers `validateAllUp(comp, onlyUp)` and `revalidateAllUp` visit,
    in order: unless `onlyUp`, the chain from each container child's furthest
    container up to the start, then the start and every container above it.
  */
  function UpOrder(t: Tree, comp: Node, onlyUp: bool): seq<Node>
    requires WellFormed(t) && comp in t
  {
    match Start(t, comp)
    case None => []
    case Some(s) =>
      assert Linked(t, s);
      FurthestAllBelow(t, s, t[s].children);
      (if onlyUp then [] else Chains(t, FurthestAll(t, t[s].children), s)) + ChainToRoot(t, s)
  }

  /** The calls made on one visited container: `validate`, preceded by `invalidate` when `invalidating`. */
  function Visit(n: Node, invalidating: bool): seq<Call>
  {
    if invalidating then [Invalidate(n), Validate(n)] else [Validate(n)]
  }

  /** The calls made on each of `order` in turn. */
  function CallsOf(order: seq<Node>, invalidating: bool): seq<Call>
  {
    if order == [] then []
    else CallsOf(order[..|order| - 1], invalidating) + Visit(order[|order| - 1], invalidating)
  }

  lemma CallsOfSnoc(order: seq<Node>, n: Node, invalidating: bool)
    ensures CallsOf(order + [n], invalidating) == CallsOf(order, invalidating) + Visit(n, invalidating)
  {
    assert (order + [n])[..|order + [n]| - 1] == order;
  }

  lemma {:induction false} CallsOfAppend(a: seq<Node>, b: seq<Node>, invalidating: bool)
    ensures CallsOf(a + b, invalidating) == CallsOf(a, invalidating) + CallsOf(b, invalidating)
    decreases |b|
  {
    if b != [] {
      assert (a + b)[..|a + b| - 1] == a + b[..|b| - 1];
      CallsOfAppend(a, b[..|b| - 1], invalidating);
    } else {
      assert a + b == a;
    }
  }

  /**
    The calls on the `i`th visited container: `validate` alone, at position
    `i`, or `invalidate` at `2i` immediately followed by `validate`.
  */
  lemma {:induction false} CallsOfShape(order: seq<Node>, invalidating: bool)
    ensures |CallsOf(order, invalidating)| == if invalidating then 2 * |order| else |order|
    ensures !invalidating ==> forall i :: 0 <= i < |order| ==> CallsOf(order, invalidating)[i] == Validate(order[i])
    ensures invalidating ==> forall i :: 0 <= i < |order| ==>
      CallsOf(order, invalidating)[2 * i] == Invalidate(order[i]) && CallsOf(order, invalidating)[2 * i + 1] == Validate(order[i])
  {
    if order != [] {
      CallsOfShape(order[..|order| - 1], invalidating);
    }
  }

  /** Every container visited is followed, later in the order, by its parent, if it has one. */
  ghost predicate ParentsLater(t: Tree, order: seq<Node>)
  {
    forall i :: 0 <= i < |order| ==>
      order[i] in t && (t[order[i]].parent.Some? ==> exists j :: i < j < |order| && order[j] == t[order[i]].parent.value)
  }

  /** The chain to the root visits a container's parent right after it, and ends at a root. */
  lemma {:induction false} ChainToRootShape(t: Tree, n: Node)
    requires WellFormed(t) && n in t
    ensures ChainToRoot(t, n)[0] == n
    ensures forall x :: x in ChainToRoot(t, n) ==> x in t
    ensures forall i :: 0 <= i < |ChainToRoot(t, n)| - 1 ==> t[ChainToRoot(t, n)[i]].parent == Some(ChainToRoot(t, n)[i + 1])
    ensures forall i :: 0 < i < |ChainToRoot(t, n)| ==> t[ChainToRoot(t, n)[i]].isContainer
    ensures t[ChainToRoot(t, n)[|ChainToRoot(t, n)| - 1]].parent.None?
    decreases t[n].depth
  {
    assert Linked(t, n);
    if t[n].parent.Some? {
      var p := t[n].parent.value;
      ChainToRootShape(t, p);
      var rest := ChainToRoot(t, p);
      assert ChainToRoot(t, n) == [n] + rest;
    } else {
      assert ChainToRoot(t, n) == [n];
    }
  }

  lemma ChainToRootParentsLater(t: Tree, n: Node)
    requires WellFormed(t) && n in t
    ensures ParentsLater(t, ChainToRoot(t, n))
  {
    var ch := ChainToRoot(t, n);
    ChainToRootShape(t, n);
    forall i | 0 <= i < |ch|
      ensures ch[i] in t && (t[ch[i]].parent.Some? ==> exists j :: i < j < |ch| && ch[j] == t[ch[i]].parent.value)
    {
      if i < |ch| - 1 {
        assert t[ch[i]].parent == Some(ch[i + 1]);
      }
    }
  }

  /** A chain below `stop`, followed by a visit order that holds `stop`, keeps parents after children. */
  lemma {:induction false} ChainBelowThen(t: Tree, f: Node, stop: Node, tail: seq<Node>)
    requires WellFormed(t) && f in t && Descends(t, f, stop)
    requires stop in tail && ParentsLater(t, tail)
    ensures ParentsLater(t, ChainBelow(t, f, stop) + tail)
    decreases t[f].depth
  {
    assert Linked(t, f);
    if f != stop {
      var p := t[f].parent.value;
      ChainBelowThen(t, p, stop, tail);
      var rest := ChainBelow(t, p, stop) + tail;
      var whole := [f] + rest;
      assert ChainBelow(t, f, stop) + tail == whole;
      assert p in rest by {
        if p != stop {
          assert rest[0] == p;
        }
      }
      forall i | 0 <= i < |whole|
        ensures whole[i] in t && (t[whole[i]].parent.Some? ==> exists j :: i < j < |whole| && whole[j] == t[whole[i]].parent.value)
      {
        if i == 0 {
          var k :| 0 <= k < |rest| && rest[k] == p;
          assert whole[k + 1] == p;
        } else {
          assert whole[i] == rest[i - 1];
          if t[whole[i]].parent.Some? {
            var k :| i - 1 < k < |rest| && rest[k] == t[rest[i - 1]].parent.value;
            assert whole[k + 1] == rest[k];
          }
        }
      }
    } else {
      assert ChainBelow(t, f, stop) + tail == tail;
    }
  }

  lemma {:induction false} ChainsThen(t: Tree, fs: seq<Node>, stop: Node, tail: seq<Node>)
    requires WellFormed(t) && forall f :: f in fs ==> f in t && Descends(t, f, stop)
    requires stop in tail && ParentsLater(t, tail)
    ensures ParentsLater(t, Chains(t, fs, stop) + tail)
    decreases |fs|
  {
    if fs != [] {
      var last := fs[|fs| - 1];
      ChainBelowThen(t, last, stop, tail);
      var tail' := ChainBelow(t, last, stop) + tail;
      assert stop in tail';
      ChainsThen(t, fs[..|fs| - 1], stop, tail');
      assert Chains(t, fs, stop) + tail == Chains(t, fs[..|fs| - 1], stop) + tail';
    } else {
      assert Chains(t, fs, stop) + tail == tail;
    }
  }

  /**
    The up-walks size children before parents: each visited container with
    a parent is followed, later in the walk, by a visit to that parent.
  */
  lemma UpOrderParentsLater(t: Tree, comp: Node, onlyUp: bool)
    requires WellFormed(t) && comp in t
    ensures ParentsLater(t, UpOrder(t, comp, onlyUp))
  {
    match Start(t, comp)
    case None =>
    case Some(s) =>
      assert Linked(t, s);
      FurthestAllBelow(t, s, t[s].children);
      ChainToRootParentsLater(t, s);
      ChainToRootShape(t, s);
      var up := ChainToRoot(t, s);
      assert up[0] == s;
      if onlyUp {
        assert UpOrder(t, comp, onlyUp) == up;
      } else {
        ChainsThen(t, FurthestAll(t, t[s].children), s, up);
      }
  }

  /**
    With `onlyUp` the walk is the chain from the start container to the
    root (whose shape `ChainToRootShape` gives), and nothing when there is
    no start.
  */
  lemma OnlyUpIsPathToRoot(t: Tree, comp: Node)
    requires WellFormed(t) && comp in t
    ensures Start(t, comp).None? ==> UpOrder(t, comp, true) == []
    ensures Start(t, comp).Some? ==> UpOrder(t, comp, true) == ChainToRoot(t, Start(t, comp).value)
  {
    match Start(t, comp)
    case None =>
    case Some(s) =>
      var up := ChainToRoot(t, s);
      assert UpOrder(t, comp, true) == [] + up;
      assert [] + up == up;
  }

  /**
    `validateAllUp(comp, onlyUp)` (when not `invalidating`) and
    `revalidateAllUp(comp, onlyUp)`: the calls on the containers the walk
    visits, as `UpOrder` lists them.
  */
  method WalkUp(t: Tree, comp: Node, onlyUp: bool, invalidating: bool) returns (calls: seq<Call>)
    requires WellFormed(t) && comp in t
    ensures calls == CallsOf(UpOrder(t, comp, onlyUp), invalidating)
  {
    calls := [];
    var start := if t[comp].isContainer then Some(comp) else t[comp].parent;
    if start.None? {
      return;
    }
    assert Linked(t, comp);
    var container := start.value;
    assert Linked(t, container);
    if !onlyUp {
      var furthest := CollectFurthest(t, t[container].children);
      FurthestAllBelow(t, container, t[container].children);
      calls := ChainCalls(t, furthest, container, invalidating);
    }
    var up := RootCalls(t, container, invalidating);
    CallsOfAppend(if onlyUp then [] else Chains(t, FurthestAll(t, t[container].children), container),
                  ChainToRoot(t, container), invalidating);
    calls := calls + up;
  }

  /**
    `validateAllUp(comp, onlyUp)`: `validate` on each container of the walk,
    in order, and nothing else. The one-argument form is this with `onlyUp`
    false.
  */
  method ValidateAllUp(t: Tree, comp: Node, onlyUp: bool) returns (calls: seq<Call>)
    requires WellFormed(t) && comp in t
    ensures calls == CallsOf(UpOrder(t, comp, onlyUp), false)
    ensures |calls| == |UpOrder(t, comp, onlyUp)|
    ensures forall i :: 0 <= i < |calls| ==> calls[i] == Validate(UpOrder(t, comp, onlyUp)[i])
  {
    calls := WalkUp(t, comp, onlyUp, false);
    CallsOfShape(UpOrder(t, comp, onlyUp), false);
  }

  /**
    `revalidateAllUp(comp, onlyUp)`: each container of the walk, in order,
    is invalidated and immediately validated. The one-argument form is this
    with `onlyUp` false.
  */
  method RevalidateAllUp(t: Tree, comp: Node, onlyUp: bool) returns (calls: seq<Call>)
    requires WellFormed(t) && comp in t
    ensures calls == CallsOf(UpOrder(t, comp, onlyUp), true)
    ensures |calls| == 2 * |UpOrder(t, comp, onlyUp)|
    ensures forall i :: 0 <= i < |UpOrder(t, comp, onlyUp)| ==>
      calls[2 * i] == Invalidate(UpOrder(t, comp, onlyUp)[i]) && calls[2 * i + 1] == Validate(UpOrder(t, comp, onlyUp)[i])
  {
    calls := WalkUp(t, comp, onlyUp, true);
    CallsOfShape(UpOrder(t, comp, onlyUp), true);
  }

  /** The list the walk builds first: the furthest container of each container child, in child order. */
  method CollectFurthest(t: Tree, kids: seq<Node>) returns (furthest: seq<Node>)
    requires WellFormed(t) && forall k :: k in kids ==> k in t
    ensures furthest == FurthestAll(t, kids)
  {
    furthest := [];
    for i := 0 to |kids|
      invariant furthest == FurthestAll(t, kids[..i])
    {
      assert kids[..i + 1][..i] == kids[..i];
      if t[kids[i]].isContainer {
        var f := FindFurthestChildContainer(t, kids[i]);
        furthest := furthest + [f];
      }
    }
    assert kids[..|kids|] == kids;
  }

  /** The last loop of the walk: the start container and each container above it, up to the root. */
  method RootCalls(t: Tree, container: Node, invalidating: bool) returns (calls: seq<Call>)
    requires WellFormed(t) && container in t
    ensures calls == CallsOf(ChainToRoot(t, container), invalidating)
  {
    ghost var chain := ChainToRoot(t, container);
    ChainToRootShape(t, container);
    calls := [];
    ghost var k := 0;
    var parent: Option<Node> := Some(container);
    while parent.Some?
      invariant k <= |chain| && calls == CallsOf(chain[..k], invalidating)
      invariant parent.Some? <==> k < |chain|
      invariant parent.Some? ==> parent.value == chain[k]
      decreases |chain| - k
    {
      var p := parent.value;
      assert chain[..k + 1] == chain[..k] + [p];
      CallsOfSnoc(chain[..k], p, invalidating);
      calls := calls + Visit(p, invalidating);
      if k < |chain| - 1 {
        assert t[p].parent == Some(chain[k + 1]);
      } else {
        assert t[p].parent.None?;
      }
      parent := t[p].parent;
      k := k + 1;
    }
    assert chain[..k] == chain;
  }

  /** The first loop of the walk: from each of `furthest` up to `container`, excluding it. */
  method ChainCalls(t: Tree, furthest: seq<Node>, container: Node, invalidating: bool) returns (calls: seq<Call>)
    requires WellFormed(t) && forall f :: f in furthest ==> f in t && Descends(t, f, container)
    ensures calls == CallsOf(Chains(t, furthest, container), invalidating)
  {
    calls := [];
    for j := 0 to |furthest|
      invariant calls == CallsOf(Chains(t, furthest[..j], container), invalidating)
    {
      var chain := ChainUpCalls(t, furthest[j], container, invalidating);
      assert furthest[..j + 1][..j] == furthest[..j];
      assert Chains(t, furthest[..j + 1], container) == Chains(t, furthest[..j], container) + ChainBelow(t, furthest[j], container);
      CallsOfAppend(Chains(t, furthest[..j], container), ChainBelow(t, furthest[j], container), invalidating);
      calls := calls + chain;
    }
    assert furthest[..|furthest|] == furthest;
  }

  /** The inner loop of the walk: from `from` up to `container`, excluding it. */
  method ChainUpCalls(t: Tree, from: Node, container: Node, invalidating: bool) returns (calls: seq<Call>)
    requires WellFormed(t) && from in t && Descends(t, from, container)
    ensures calls == CallsOf(ChainBelow(t, from, container), invalidating)
  {
    ghost var chain := ChainBelow(t, from, container);
    ChainBelowShape(t, from, container);
    calls := [];
    ghost var k := 0;
    var parent := from;
    while parent != container
      invariant k <= |chain| && calls == CallsOf(chain[..k], invalidating)
      invariant parent != container <==> k < |chain|
      invariant k < |chain| ==> parent == chain[k]
      decreases |chain| - k
    {
      assert chain[..k + 1] == chain[..k] + [parent];
      CallsOfSnoc(chain[..k], parent, invalidating);
      calls := calls + Visit(parent, invalidating);
      if k < |chain| - 1 {
        assert t[parent].parent == Some(chain[k + 1]);
      } else {
        assert t[parent].parent == Some(container);
      }
      parent := t[parent].parent.value;
      k := k + 1;
    }
    assert chain[..k] == chain;
  }

  /** `findFurthestChildContainer(container)`. */
  method FindFurthestChildContainer(t: Tree, container: Node) returns (f: Node)
    requires WellFormed(t) && container in t
    ensures f == Furthest(t, container)
    decreases t[container].height
  {
    assert Linked(t, container);
    var kids := t[container].children;
    for i := 0 to |kids|
      invariant forall k :: 0 <= k < i ==> !t[kids[k]].isContainer
    {
      if t[kids[i]].isContainer {
        assert Linked(t, kids[i]);
        f := FindFurthestChildContainer(t, kids[i]);
        return;
      }
    }
    return container;
  }

  /** The containers `validateDown` validates below and including container `s`, in pre-order. */
  function DownOrder(t: Tree, s: Node): seq<Node>
    requires WellFormed(t) && s in t
    decreases t[s].height, |t[s].children| + 1
  {
    [s] + DownKids(t, s, |t[s].children|)
  }

  /** The pre-order of each container among the first `i` children of `s`, one after the other. */
  function DownKids(t: Tree, s: Node, i: nat): seq<Node>
    requires WellFormed(t) && s in t && i <= |t[s].children|
    decreases t[s].height, i
  {
    if i == 0 then []
    else
      var c := t[s].children[i - 1];
      assert Linked(t, s) && Linked(t, c);
      DownKids(t, s, i - 1) + if t[c].isContainer then DownOrder(t, c) else []
  }

  /** `validateDown(comp)`: the containers validated, from the start container down. */
  function DownFrom(t: Tree, comp: Node): seq<Node>
    requires WellFormed(t) && comp in t
  {
    match Start(t, comp)
    case None => []
    case Some(s) => DownOrder(t, s)
  }

  /** Each container validated below `s` has its parent validated before it. */
  ghost predicate ParentsEarlier(t: Tree, order: seq<Node>, s: Node)
  {
    forall i :: 0 <= i < |order| ==>
      order[i] in t && t[order[i]].isContainer &&
      (t[order[i]].parent == Some(s) || exists j :: 0 <= j < i && Some(order[j]) == t[order[i]].parent)
  }

  /**
    `validateDown` works top-down: it starts at the container, validates
    containers only, and validates each one after its parent.
  */
  lemma {:induction false} DownOrderTopDown(t: Tree, s: Node)
    requires WellFormed(t) && s in t && t[s].isContainer
    ensures DownOrder(t, s)[0] == s
    ensures forall i :: 0 < i < |DownOrder(t, s)| ==>
      DownOrder(t, s)[i] in t && t[DownOrder(t, s)[i]].isContainer &&
      exists j :: 0 <= j < i && Some(DownOrder(t, s)[j]) == t[DownOrder(t, s)[i]].parent
    decreases t[s].height, |t[s].children| + 1
  {
    var d := DownOrder(t, s);
    var dk := DownKids(t, s, |t[s].children|);
    DownKidsTopDown(t, s, |t[s].children|);
    forall i | 0 < i < |d|
      ensures d[i] in t && t[d[i]].isContainer && exists j :: 0 <= j < i && Some(d[j]) == t[d[i]].parent
    {
      assert d[i] == dk[i - 1];
      if t[dk[i - 1]].parent == Some(s) {
        assert Some(d[0]) == t[d[i]].parent;
      } else {
        var j :| 0 <= j < i - 1 && Some(dk[j]) == t[dk[i - 1]].parent;
        assert d[j + 1] == dk[j];
      }
    }
  }

  lemma {:induction false} DownKidsTopDown(t: Tree, s: Node, i: nat)
    requires WellFormed(t) && s in t && i <= |t[s].children|
    ensures ParentsEarlier(t, DownKids(t, s, i), s)
    decreases t[s].height, i
  {
    if i > 0 {
      var c := t[s].children[i - 1];
      assert Linked(t, s) && Linked(t, c);
      var front := DownKids(t, s, i - 1);
      DownKidsTopDown(t, s, i - 1);
      if t[c].isContainer {
        var sub := DownOrder(t, c);
        DownOrderTopDown(t, c);
        var whole := front + sub;
        assert DownKids(t, s, i) == whole;
        forall k | 0 <= k < |whole|
          ensures whole[k] in t && t[whole[k]].isContainer &&
            (t[whole[k]].parent == Some(s) || exists j :: 0 <= j < k && Some(whole[j]) == t[whole[k]].parent)
        {
          if k < |front| {
            assert whole[k] == front[k];
            if t[front[k]].parent != Some(s) {
              var j :| 0 <= j < k && Some(front[j]) == t[front[k]].parent;
              assert whole[j] == front[j];
            }
          } else {
            var m := k - |front|;
            assert whole[k] == sub[m];
            if m > 0 {
              var j :| 0 <= j < m && Some(sub[j]) == t[sub[m]].parent;
              assert whole[|front| + j] == sub[j];
            }
          }
        }
      } else {
        assert DownKids(t, s, i) == front;
      }
    }
  }

  /** `validateDown(comp)`: validates the start container, then each container child recursively. */
  method ValidateDown(t: Tree, comp: Node) returns (validated: seq<Node>)
    requires WellFormed(t) && comp in t
    ensures validated == DownFrom(t, comp)
    decreases if t[comp].isContainer then t[comp].height else if t[comp].parent.Some? && t[comp].parent.value in t then t[t[comp].parent.value].height else 0
  {
    assert Linked(t, comp);
    var start := if t[comp].isContainer then Some(comp) else t[comp].parent;
    if start.None? {
      return [];
    }
    var container := start.value;
    assert Linked(t, container);
    validated := [container];
    var kids := t[container].children;
    for i := 0 to |kids|
      invariant validated == [container] + DownKids(t, container, i)
    {
      if t[kids[i]].isContainer {
        assert Linked(t, kids[i]);
        var below := ValidateDown(t, kids[i]);
        validated := validated + below;
      }
    }
  }
}
