/** The walk over a payload that looks for dictionaries tagged with another hotel. */
module MembraneWalks {
  import opened Options

  /** A value is a scalar, or a container known by its object identity. */
  datatype Ref = Scalar | Ptr(id: int)

  datatype Node =
    | DictNode(tag: Option<string>, values: seq<Ref>)    // `tag` is the entry under "hotel_id"
    | ListNode(items: seq<Ref>)                          // lists and tuples
    | ObjectNode(vars: Ref)                              // an instance and its attribute dictionary

  type Heap = map<int, Node>

  function Children(n: Node): seq<Ref>
  {
    match n
    case DictNode(_, values) => values
    case ListNode(items) => items
    case ObjectNode(vars) => [vars]
  }

  predicate Foreign(n: Node, hotel: string)
  {
    n.DictNode? && n.tag.Some? && n.tag.value != hotel
  }

  predicate InHeap(h: Heap, r: Ref)
  {
    r.Ptr? ==> r.id in h
  }

  ghost predicate WellFormed(h: Heap)
  {
    forall id :: id in h ==> forall r :: r in Children(h[id]) ==> InHeap(h, r)
  }

  /** The answer, and the identities that have been seen so far. */
  datatype Visit = Visit(ok: bool, visited: set<int>)

  /** A container is marked before its depth is checked, and a marked one passes. */
  ghost function Walk(h: Heap, hotel: string, r: Ref, depth: nat, maxDepth: nat, visited: set<int>): Visit
    requires WellFormed(h) && InHeap(h, r) && depth <= maxDepth + 1
    decreases maxDepth + 1 - depth, 0, 0
  {
    if r.Scalar? || r.id in visited then Visit(true, visited)
    else
      var seen := visited + {r.id};
      if depth > maxDepth then Visit(true, seen)
      else if Foreign(h[r.id], hotel) then Visit(false, seen)
      else WalkAll(h, hotel, Children(h[r.id]), depth + 1, maxDepth, seen)
  }

  ghost function WalkAll(h: Heap, hotel: string, rs: seq<Ref>, depth: nat, maxDepth: nat, visited: set<int>): Visit
    requires WellFormed(h) && (forall r :: r in rs ==> InHeap(h, r)) && depth <= maxDepth + 1
    decreases maxDepth + 1 - depth, 1, |rs|
  {
    if rs == [] then Visit(true, visited)
    else
      var first := Walk(h, hotel, rs[0], depth, maxDepth, visited);
      if !first.ok then first else WalkAll(h, hotel, rs[1..], depth, maxDepth, first.visited)
  }

  class MembraneCheck {
    const hotelId: string
    var visited: set<int>

    constructor (hotelId: string)
      ensures this.hotelId == hotelId && visited == {}
    {
      this.hotelId := hotelId;
      visited := {};
    }

    /** Payloads of other hotels are not this membrane's business. */
    method PhaseMembraneCheck(hotel: string, h: Heap, payload: Ref) returns (ok: bool)
      requires WellFormed(h) && InHeap(h, payload)
      modifies this
      ensures ok <==> hotel != hotelId || Walk(h, hotel, payload, 0, 16, {}).ok
      ensures !ok ==> hotel == hotelId && payload.Ptr? && ForeignWithin(h, hotel, payload.id, 16)
      ensures hotel == hotelId && payload.Ptr? && NoDetours(h, payload.id, 16) ==>
                (ok <==> !ForeignWithin(h, hotel, payload.id, 16))
    {
      if hotel != hotelId {
        return true;
      }
      visited := {};
      ok := Check(hotel, h, payload, 0, 16);
      if !ok {
        RefusalIsSound(h, hotel, payload, 0, 16, {});
      }
      if payload.Ptr? && NoDetours(h, payload.id, 16) {
        CheckDecidesForeignnessWithinLimit(h, hotel, payload.id, 16);
      }
    }

    method Check(hotel: string, h: Heap, r: Ref, depth: nat, maxDepth: nat) returns (ok: bool)
      requires WellFormed(h) && InHeap(h, r) && depth <= maxDepth + 1
      modifies this
      ensures Visit(ok, visited) == Walk(h, hotel, r, depth, maxDepth, old(visited))
      decreases maxDepth + 1 - depth
    {
      if r.Ptr? {
        if r.id in visited {
          return true;
        }
        visited := visited + {r.id};
      }
      if depth > maxDepth || r.Scalar? {
        return true;
      }
      var node := h[r.id];
      if Foreign(node, hotel) {
        return false;
      }
      ghost var seen := visited;
      var children := Children(node);
      for i := 0 to |children|
        invariant WalkAll(h, hotel, children, depth + 1, maxDepth, seen)
               == WalkAll(h, hotel, children[i..], depth + 1, maxDepth, visited)
      {
        assert children[i..][0] == children[i] && children[i..][1..] == children[i + 1..];
        var passed := Check(hotel, h, children[i], depth + 1, maxDepth);
        if !passed {
          return false;
        }
      }
      ok := true;
    }
  }

  // ---- reachability ----------------------------------------------------------------------------------

  /** A dictionary holds `b` among its values, a list among its items, and an object as its attribute dictionary. */
  ghost predicate Holds(n: Node, b: int)
  {
    match n
    case DictNode(_, values) => exists i :: 0 <= i < |values| && values[i] == Ptr(b)
    case ListNode(items) => exists i :: 0 <= i < |items| && items[i] == Ptr(b)
    case ObjectNode(vars) => vars == Ptr(b)
  }

  ghost predicate Edge(h: Heap, a: int, b: int)
  {
    a in h && b in h && Holds(h[a], b)
  }

  lemma HoldsIffChild(n: Node, b: int)
    ensures Holds(n, b) <==> Ptr(b) in Children(n)
  {
  }

  lemma EdgeIffChild(h: Heap, a: int, b: int)
    ensures Edge(h, a, b) <==> a in h && b in h && Ptr(b) in Children(h[a])
  {
    if a in h {
      HoldsIffChild(h[a], b);
    }
  }

  ghost predicate IsPath(h: Heap, p: seq<int>)
  {
    && p != [] && p[0] in h
    && forall i :: 0 < i < |p| ==> Edge(h, p[i - 1], p[i])
  }

  ghost predicate Reaches(h: Heap, a: int, b: int)
  {
    exists p :: IsPath(h, p) && p[0] == a && p[|p| - 1] == b
  }

  ghost predicate ReachesForeign(h: Heap, hotel: string, a: int)
  {
    exists b :: b in h && Reaches(h, a, b) && Foreign(h[b], hotel)
  }

  ghost predicate IsPathTo(h: Heap, p: seq<int>, a: int, b: int)
  {
    IsPath(h, p) && p[0] == a && p[|p| - 1] == b
  }

  /** A foreign dictionary lies at most `edges` edges away. */
  ghost predicate ForeignWithin(h: Heap, hotel: string, a: int, edges: int)
  {
    exists p :: IsPath(h, p) && p[0] == a && |p| - 1 <= edges && EndsForeign(h, hotel, p)
  }

  ghost predicate EndsForeign(h: Heap, hotel: string, p: seq<int>)
  {
    p != [] && p[|p| - 1] in h && Foreign(h[p[|p| - 1]], hotel)
  }

  lemma StepThenForeign(h: Heap, hotel: string, a: int, b: int, edges: int)
    requires Edge(h, a, b) && ForeignWithin(h, hotel, b, edges)
    ensures ForeignWithin(h, hotel, a, edges + 1)
  {
    var p :| IsPath(h, p) && p[0] == b && |p| - 1 <= edges && EndsForeign(h, hotel, p);
    var q := [a] + p;
    forall i | 0 < i < |q|
      ensures Edge(h, q[i - 1], q[i])
    {
      if i > 1 {
        assert Edge(h, p[i - 2], p[i - 1]);
      }
    }
    assert IsPath(h, q) && EndsForeign(h, hotel, q);
  }

  /** Refusing means that a foreign dictionary can be reached before the depth limit. */
  lemma {:induction false} RefusalIsSound(h: Heap, hotel: string, r: Ref, depth: nat, maxDepth: nat, visited: set<int>)
    requires WellFormed(h) && InHeap(h, r) && depth <= maxDepth + 1
    requires !Walk(h, hotel, r, depth, maxDepth, visited).ok
    ensures r.Ptr? && ForeignWithin(h, hotel, r.id, maxDepth - depth)
    decreases maxDepth + 1 - depth, 0, 0
  {
    if Foreign(h[r.id], hotel) {
      assert IsPath(h, [r.id]) && EndsForeign(h, hotel, [r.id]);
    } else {
      var child := RefusalOfSome(h, hotel, Children(h[r.id]), depth + 1, maxDepth, visited + {r.id});
      StepThenForeign(h, hotel, r.id, child, maxDepth - depth - 1);
    }
  }

  lemma {:induction false} RefusalOfSome(
    h: Heap, hotel: string, rs: seq<Ref>, depth: nat, maxDepth: nat, visited: set<int>)
    returns (child: int)
    requires WellFormed(h) && (forall r :: r in rs ==> InHeap(h, r)) && depth <= maxDepth + 1
    requires !WalkAll(h, hotel, rs, depth, maxDepth, visited).ok
    ensures Ptr(child) in rs && ForeignWithin(h, hotel, child, maxDepth - depth)
    decreases maxDepth + 1 - depth, 1, |rs|
  {
    var first := Walk(h, hotel, rs[0], depth, maxDepth, visited);
    if !first.ok {
      RefusalIsSound(h, hotel, rs[0], depth, maxDepth, visited);
      child := rs[0].id;
    } else {
      child := RefusalOfSome(h, hotel, rs[1..], depth, maxDepth, first.visited);
    }
  }

  // ---- simple paths ----------------------------------------------------------------------------------

  ghost predicate Distinct(p: seq<int>)
  {
    forall i, j :: 0 <= i < j < |p| ==> p[i] != p[j]
  }

  ghost predicate IsSimplePath(h: Heap, p: seq<int>, a: int, b: int)
  {
    IsPathTo(h, p, a, b) && Distinct(p)
  }

  lemma CutCycle(h: Heap, p: seq<int>, a: int, b: int, i: nat, j: nat)
    requires IsPathTo(h, p, a, b) && i < j < |p| && p[i] == p[j]
    ensures IsPathTo(h, p[..i] + p[j..], a, b)
  {
    var q := p[..i] + p[j..];
    forall k | 0 < k < |q|
      ensures Edge(h, q[k - 1], q[k])
    {
      if k < i {
        assert Edge(h, p[k - 1], p[k]);
      } else if k == i {
        assert Edge(h, p[i - 1], p[i]);
      } else {
        assert Edge(h, p[k - i + j - 1], p[k - i + j]);
      }
    }
  }

  /** Every path contains a simple path with the same ends. */
  lemma {:induction false} Shortened(h: Heap, p: seq<int>, a: int, b: int) returns (q: seq<int>)
    requires IsPathTo(h, p, a, b)
    ensures IsSimplePath(h, q, a, b) && |q| <= |p|
    decreases |p|
  {
    if Distinct(p) {
      q := p;
    } else {
      var i, j :| 0 <= i < j < |p| && p[i] == p[j];
      CutCycle(h, p, a, b, i, j);
      q := Shortened(h, p[..i] + p[j..], a, b);
    }
  }

  /** A simple path of at most `maxDepth` edges leads from the root to the container. */
  ghost predicate IsNear(h: Heap, root: int, maxDepth: nat, id: int)
  {
    exists p :: IsSimplePath(h, p, root, id) && |p| - 1 <= maxDepth
  }

  /** A simple path of one edge too many leads to the container: only there can the walk mark it unchecked. */
  ghost predicate IsFar(h: Heap, root: int, maxDepth: nat, id: int)
  {
    exists p :: IsSimplePath(h, p, root, id) && |p| - 1 == maxDepth + 1
  }

  /** No container is reached both within the limit and, on a detour, by exactly one edge more than the limit. */
  ghost predicate NoDetours(h: Heap, root: int, maxDepth: nat)
  {
    forall id :: !(IsNear(h, root, maxDepth, id) && IsFar(h, root, maxDepth, id))
  }

  // ---- whose tags count --------------------------------------------------------------------------------

  /** Dictionaries without a tag, or with the hotel's own, are never refused, whatever else the payload holds. */
  lemma OwnTagsPass(h: Heap, hotel: string, r: Ref, depth: nat, maxDepth: nat, visited: set<int>)
    requires WellFormed(h) && InHeap(h, r) && depth <= maxDepth + 1
    requires forall id :: id in h && h[id].DictNode? ==> h[id].tag == None || h[id].tag == Some(hotel)
    ensures Walk(h, hotel, r, depth, maxDepth, visited).ok
  {
    assert forall id :: id in h ==> !Foreign(h[id], hotel);
    if !Walk(h, hotel, r, depth, maxDepth, visited).ok {
      RefusalIsSound(h, hotel, r, depth, maxDepth, visited);
    }
  }

  /** A payload that is itself a dictionary with another hotel's tag is always refused. */
  lemma ForeignTagIsRefused(h: Heap, hotel: string, root: int, maxDepth: nat)
    requires WellFormed(h) && root in h && h[root].DictNode? && h[root].tag.Some? && h[root].tag.value != hotel
    ensures !Walk(h, hotel, Ptr(root), 0, maxDepth, {}).ok
  {
  }

  // ---- completeness ----------------------------------------------------------------------------------

  /** The containers between the root and the current one; all of them are marked but not finished. */
  ghost predicate IsStack(h: Heap, root: int, stack: seq<int>, visited: set<int>)
  {
    && IsPath(h, stack) && Distinct(stack) && stack[0] == root && stack[|stack| - 1] in h
    && forall i :: 0 <= i < |stack| ==> stack[i] in visited
  }

  /** A finished container is not foreign, and all its children are marked. */
  ghost predicate Finished(h: Heap, hotel: string, id: int, visited: set<int>)
  {
    id in h && !Foreign(h[id], hotel) && forall b :: Edge(h, id, b) ==> b in visited
  }

  /** What is newly marked is finished, or has been cut off at the depth limit. */
  ghost predicate AllSettled(h: Heap, hotel: string, root: int, maxDepth: nat, before: set<int>, after: set<int>)
  {
    && before <= after
    && forall id :: id in after && id !in before ==> Settled(h, hotel, root, maxDepth, id, after)
  }

  ghost predicate Settled(h: Heap, hotel: string, root: int, maxDepth: nat, id: int, visited: set<int>)
  {
    Finished(h, hotel, id, visited) || IsFar(h, root, maxDepth, id)
  }

  lemma PushIsStack(h: Heap, root: int, stack: seq<int>, visited: set<int>, id: int)
    requires IsStack(h, root, stack, visited) && Edge(h, stack[|stack| - 1], id) && id !in visited
    ensures IsStack(h, root, stack + [id], visited + {id})
    ensures IsSimplePath(h, stack + [id], root, id)
  {
    var longer := stack + [id];
    forall i | 0 < i < |longer|
      ensures Edge(h, longer[i - 1], longer[i])
    {
      if i < |stack| {
        assert Edge(h, stack[i - 1], stack[i]);
      }
    }
  }

  lemma {:induction false} PassSettlesChild(
    h: Heap, hotel: string, r: Ref, maxDepth: nat, visited: set<int>, root: int, stack: seq<int>)
    requires WellFormed(h) && InHeap(h, r)
    requires IsStack(h, root, stack, visited) && |stack| <= maxDepth + 1 && r in Children(h[stack[|stack| - 1]])
    requires Walk(h, hotel, r, |stack|, maxDepth, visited).ok
    ensures AllSettled(h, hotel, root, maxDepth, visited, Walk(h, hotel, r, |stack|, maxDepth, visited).visited)
    ensures r.Ptr? ==> r.id in Walk(h, hotel, r, |stack|, maxDepth, visited).visited
    decreases maxDepth + 1 - |stack|, 0, 0
  {
    if r.Ptr? && r.id !in visited {
      PushIsStack(h, root, stack, visited, r.id);
      var pushed := stack + [r.id];
      if |stack| <= maxDepth {
        PassSettlesAll(h, hotel, Children(h[r.id]), maxDepth, visited + {r.id}, root, pushed);
      } else {
        assert IsFar(h, root, maxDepth, r.id);
      }
    }
  }

  lemma {:induction false} PassSettlesAll(
    h: Heap, hotel: string, rs: seq<Ref>, maxDepth: nat, visited: set<int>, root: int, stack: seq<int>)
    requires WellFormed(h) && (forall r :: r in rs ==> InHeap(h, r))
    requires IsStack(h, root, stack, visited) && |stack| <= maxDepth + 1
    requires forall r :: r in rs ==> r in Children(h[stack[|stack| - 1]])
    requires WalkAll(h, hotel, rs, |stack|, maxDepth, visited).ok
    ensures var after := WalkAll(h, hotel, rs, |stack|, maxDepth, visited).visited;
            AllSettled(h, hotel, root, maxDepth, visited, after) && forall r :: r in rs && r.Ptr? ==> r.id in after
    decreases maxDepth + 1 - |stack|, 1, |rs|
  {
    if rs != [] {
      var middle := Walk(h, hotel, rs[0], |stack|, maxDepth, visited).visited;
      assert rs[0] in rs && forall r :: r in rs[1..] ==> r in rs;
      PassSettlesChild(h, hotel, rs[0], maxDepth, visited, root, stack);
      PassSettlesAll(h, hotel, rs[1..], maxDepth, middle, root, stack);
      var after := WalkAll(h, hotel, rs, |stack|, maxDepth, visited).visited;
      forall id | id in after && id !in visited
        ensures Settled(h, hotel, root, maxDepth, id, after)
      {
        if id in middle {
          assert Settled(h, hotel, root, maxDepth, id, middle);
        }
      }
    }
  }

  lemma RootIsSettled(h: Heap, hotel: string, root: int, maxDepth: nat)
    requires WellFormed(h) && root in h && Walk(h, hotel, Ptr(root), 0, maxDepth, {}).ok
    ensures var after := Walk(h, hotel, Ptr(root), 0, maxDepth, {}).visited;
            && Finished(h, hotel, root, after)
            && forall id :: id in after ==> Settled(h, hotel, root, maxDepth, id, after)
  {
    var seen: set<int> := {root};
    assert seen == {} + {root};
    PassSettlesAll(h, hotel, Children(h[root]), maxDepth, seen, root, [root]);
    var after := Walk(h, hotel, Ptr(root), 0, maxDepth, {}).visited;
    forall b | Edge(h, root, b)
      ensures b in after
    {
      assert Ptr(b) in Children(h[root]);
    }
  }

  lemma PrefixIsNear(h: Heap, root: int, maxDepth: nat, p: seq<int>, i: nat)
    requires IsPath(h, p) && p[0] == root && i < |p| && i <= maxDepth
    ensures IsNear(h, root, maxDepth, p[i])
  {
    PrefixIsPath(h, p, i + 1);
    var q := Shortened(h, p[..i + 1], root, p[i]);
  }

  /** Along a path within the limit every container is finished. */
  lemma {:induction false} PathIsFinished(
    h: Heap, hotel: string, root: int, maxDepth: nat, visited: set<int>, p: seq<int>, i: nat)
    requires IsPath(h, p) && p[0] == root && i < |p| && i <= maxDepth && NoDetours(h, root, maxDepth)
    requires Finished(h, hotel, root, visited)
    requires forall id :: id in visited ==> Settled(h, hotel, root, maxDepth, id, visited)
    ensures Finished(h, hotel, p[i], visited)
  {
    if i > 0 {
      PathIsFinished(h, hotel, root, maxDepth, visited, p, i - 1);
      assert Edge(h, p[i - 1], p[i]);
      assert Settled(h, hotel, root, maxDepth, p[i], visited);
      PrefixIsNear(h, root, maxDepth, p, i);
    }
  }

  ghost predicate IsDecided(h: Heap, hotel: string, root: int, maxDepth: nat)
  {
    && WellFormed(h) && root in h
    && (Walk(h, hotel, Ptr(root), 0, maxDepth, {}).ok <==> !ForeignWithin(h, hotel, root, maxDepth))
  }

  /**
   * If no container is reached both within the depth limit and, on a detour, by one edge more, the check passes
   * exactly when no foreign dictionary lies within the limit. The payload may be cyclic and as deep as it likes.
   */
  lemma CheckDecidesForeignnessWithinLimit(h: Heap, hotel: string, root: int, maxDepth: nat)
    requires WellFormed(h) && root in h && NoDetours(h, root, maxDepth)
    ensures Walk(h, hotel, Ptr(root), 0, maxDepth, {}).ok <==> !ForeignWithin(h, hotel, root, maxDepth)
  {
    if !Walk(h, hotel, Ptr(root), 0, maxDepth, {}).ok {
      RefusalIsSound(h, hotel, Ptr(root), 0, maxDepth, {});
    } else if ForeignWithin(h, hotel, root, maxDepth) {
      var p :| IsPath(h, p) && p[0] == root && |p| - 1 <= maxDepth && EndsForeign(h, hotel, p);
      RootIsSettled(h, hotel, root, maxDepth);
      var after := Walk(h, hotel, Ptr(root), 0, maxDepth, {}).visited;
      PathIsFinished(h, hotel, root, maxDepth, after, p, |p| - 1);
    }
  }

  // ---- the condition is exact --------------------------------------------------------------------------

  /** The same containers with the same edges; tags, kinds of container and the order of children may differ. */
  ghost predicate SameShape(h: Heap, g: Heap)
  {
    h.Keys == g.Keys && forall a, b :: Edge(h, a, b) <==> Edge(g, a, b)
  }

  lemma SameShapeSamePath(h: Heap, g: Heap, p: seq<int>)
    requires SameShape(h, g)
    ensures IsPath(h, p) <==> IsPath(g, p)
  {
  }

  lemma SameShapeSameDetours(h: Heap, g: Heap, root: int, maxDepth: nat)
    requires SameShape(h, g) && NoDetours(h, root, maxDepth)
    ensures NoDetours(g, root, maxDepth)
  {
    forall id
      ensures !(IsNear(g, root, maxDepth, id) && IsFar(g, root, maxDepth, id))
    {
      if IsNear(g, root, maxDepth, id) && IsFar(g, root, maxDepth, id) {
        var p :| IsSimplePath(g, p, root, id) && |p| - 1 <= maxDepth;
        var q :| IsSimplePath(g, q, root, id) && |q| - 1 == maxDepth + 1;
        SameShapeSamePath(h, g, p);
        SameShapeSamePath(h, g, q);
        assert IsSimplePath(h, p, root, id) && IsSimplePath(h, q, root, id);
        assert IsNear(h, root, maxDepth, id) && IsFar(h, root, maxDepth, id);
      }
    }
  }

  /** Where `id` stands on the path, or the length. */
  function PlaceOf(p: seq<int>, id: int): (i: nat)
    ensures i <= |p| && (i < |p| ==> p[i] == id) && (i == |p| ==> id !in p)
  {
    if p == [] || p[0] == id then 0 else 1 + PlaceOf(p[1..], id)
  }

  /** The containers of the path hold its next container first, and its end is the only foreign dictionary. */
  function Steered(h: Heap, p: seq<int>, other: string): Heap
  {
    map id | id in h ::
      var i := PlaceOf(p, id);
      if i + 1 < |p| then ListNode([Ptr(p[i + 1])] + Children(h[id]))
      else if i + 1 == |p| then DictNode(Some(other), Children(h[id]))
      else ListNode(Children(h[id]))
  }

  lemma SteeredKeepsShape(h: Heap, p: seq<int>, other: string)
    requires WellFormed(h) && IsPath(h, p)
    ensures WellFormed(Steered(h, p, other)) && SameShape(h, Steered(h, p, other))
  {
    var g := Steered(h, p, other);
    forall id | id in h
      ensures forall r :: r in Children(g[id]) <==> r in Children(h[id])
    {
      SteeredChildren(h, p, other, id);
    }
    forall a, b
      ensures Edge(h, a, b) <==> Edge(g, a, b)
    {
      EdgeIffChild(h, a, b);
      EdgeIffChild(g, a, b);
    }
  }

  lemma SteeredChildren(h: Heap, p: seq<int>, other: string, id: int)
    requires IsPath(h, p) && id in h
    ensures forall r :: r in Children(Steered(h, p, other)[id]) <==> r in Children(h[id])
  {
    var i := PlaceOf(p, id);
    if i + 1 < |p| {
      assert Edge(h, p[i], p[i + 1]);
      EdgeIffChild(h, p[i], p[i + 1]);
    }
  }

  lemma SteeredAt(h: Heap, p: seq<int>, other: string, i: nat)
    requires IsPath(h, p) && Distinct(p) && i < |p|
    ensures p[i] in h && PlaceOf(p, p[i]) == i
  {
    assert i > 0 ==> Edge(h, p[i - 1], p[i]);
  }

  /** Once the only foreign dictionary is marked, everything passes. */
  lemma {:induction false} AllPassesOnceMarked(
    h: Heap, hotel: string, rs: seq<Ref>, depth: nat, maxDepth: nat, visited: set<int>, end: int)
    requires WellFormed(h) && (forall r :: r in rs ==> InHeap(h, r)) && depth <= maxDepth + 1 && end in visited
    requires forall id :: id in h && id != end ==> !Foreign(h[id], hotel)
    ensures var after := WalkAll(h, hotel, rs, depth, maxDepth, visited); after.ok && end in after.visited
    decreases maxDepth + 1 - depth, 1, |rs|
  {
    if rs != [] {
      PassesOnceMarked(h, hotel, rs[0], depth, maxDepth, visited, end);
      var first := Walk(h, hotel, rs[0], depth, maxDepth, visited);
      AllPassesOnceMarked(h, hotel, rs[1..], depth, maxDepth, first.visited, end);
    }
  }

  lemma {:induction false} PassesOnceMarked(
    h: Heap, hotel: string, r: Ref, depth: nat, maxDepth: nat, visited: set<int>, end: int)
    requires WellFormed(h) && InHeap(h, r) && depth <= maxDepth + 1 && end in visited
    requires forall id :: id in h && id != end ==> !Foreign(h[id], hotel)
    ensures var after := Walk(h, hotel, r, depth, maxDepth, visited); after.ok && end in after.visited
    decreases maxDepth + 1 - depth, 0, 0
  {
    if r.Ptr? && r.id !in visited && depth <= maxDepth {
      AllPassesOnceMarked(h, hotel, Children(h[r.id]), depth + 1, maxDepth, visited + {r.id}, end);
    }
  }

  /** The walk follows the path to its end, which it marks one edge too deep to check. */
  lemma {:induction false} WalkIsSteered(
    g: Heap, hotel: string, p: seq<int>, i: nat, maxDepth: nat, visited: set<int>)
    requires WellFormed(g) && IsPath(g, p) && Distinct(p) && |p| == maxDepth + 2 && i < |p| && p[i] in g
    requires forall j :: 0 <= j < |p| - 1 ==> LeadsOn(g, p, j)
    requires forall id :: id in g && id != p[|p| - 1] ==> !Foreign(g[id], hotel)
    requires forall j :: i <= j < |p| ==> p[j] !in visited
    ensures var after := Walk(g, hotel, Ptr(p[i]), i, maxDepth, visited); after.ok && p[|p| - 1] in after.visited
    decreases |p| - i
  {
    if i < |p| - 1 {
      assert LeadsOn(g, p, i) && Edge(g, p[i], p[i + 1]);
      var seen, rs := visited + {p[i]}, Children(g[p[i]]);
      WalkIsSteered(g, hotel, p, i + 1, maxDepth, seen);
      var first := Walk(g, hotel, rs[0], i + 1, maxDepth, seen);
      AllPassesOnceMarked(g, hotel, rs[1..], i + 1, maxDepth, first.visited, p[|p| - 1]);
    }
  }

  ghost predicate LeadsOn(g: Heap, p: seq<int>, j: nat)
    requires j + 1 < |p|
  {
    p[j] in g && Children(g[p[j]]) != [] && Children(g[p[j]])[0] == Ptr(p[j + 1])
  }

  lemma OnlyEndIsForeign(h: Heap, q: seq<int>, hotel: string, other: string, id: int)
    requires IsPath(h, q) && Distinct(q) && id in h && other != hotel
    ensures Foreign(Steered(h, q, other)[id], hotel) <==> id == q[|q| - 1]
  {
    SteeredAt(h, q, other, |q| - 1);
  }

  lemma SteeredLeadsOn(h: Heap, q: seq<int>, other: string, j: nat)
    requires IsPath(h, q) && Distinct(q) && j + 1 < |q|
    ensures LeadsOn(Steered(h, q, other), q, j)
  {
    SteeredAt(h, q, other, j);
  }

  /** A detour of one edge too many lets a foreign dictionary within the limit pass, in some payload of this shape. */
  lemma DetourIsMissed(h: Heap, hotel: string, root: int, maxDepth: nat, p: seq<int>, q: seq<int>, id: int)
    returns (g: Heap)
    requires WellFormed(h) && root in h
    requires IsSimplePath(h, p, root, id) && |p| - 1 <= maxDepth
    requires IsSimplePath(h, q, root, id) && |q| - 1 == maxDepth + 1
    ensures WellFormed(g) && SameShape(h, g)
    ensures Walk(g, hotel, Ptr(root), 0, maxDepth, {}).ok && ForeignWithin(g, hotel, root, maxDepth)
  {
    var other := hotel + "'";
    assert |other| != |hotel|;
    g := Steered(h, q, other);
    SteeredKeepsShape(h, q, other);
    SameShapeSamePath(h, g, p);
    SameShapeSamePath(h, g, q);
    SteeredAt(h, q, other, |q| - 1);
    OnlyEndIsForeign(h, q, hotel, other, id);
    assert EndsForeign(g, hotel, p);
    SteeredPasses(h, g, hotel, other, maxDepth, q);
  }

  lemma SteeredPasses(h: Heap, g: Heap, hotel: string, other: string, maxDepth: nat, q: seq<int>)
    requires IsPath(h, q) && Distinct(q) && |q| == maxDepth + 2 && other != hotel
    requires g == Steered(h, q, other) && WellFormed(g) && IsPath(g, q)
    ensures Walk(g, hotel, Ptr(q[0]), 0, maxDepth, {}).ok
  {
    forall j | 0 <= j < |q| - 1
      ensures LeadsOn(g, q, j)
    {
      SteeredLeadsOn(h, q, other, j);
    }
    forall a | a in g && a != q[|q| - 1]
      ensures !Foreign(g[a], hotel)
    {
      OnlyEndIsForeign(h, q, hotel, other, a);
    }
    WalkIsSteered(g, hotel, q, 0, maxDepth, {});
  }

  /**
   * The exact condition on a payload's shape: whatever tags its containers carry and in whatever order they hold
   * their children, the check decides it, if and only if there is no detour.
   */
  lemma ShapeIsDecidedIffNoDetours(h: Heap, hotel: string, root: int, maxDepth: nat)
    requires WellFormed(h) && root in h
    ensures (forall g :: WellFormed(g) && SameShape(h, g) ==> IsDecided(g, hotel, root, maxDepth)) <==>
            NoDetours(h, root, maxDepth)
  {
    if NoDetours(h, root, maxDepth) {
      forall g | WellFormed(g) && SameShape(h, g)
        ensures IsDecided(g, hotel, root, maxDepth)
      {
        SameShapeSameDetours(h, g, root, maxDepth);
        CheckDecidesForeignnessWithinLimit(g, hotel, root, maxDepth);
      }
    } else {
      var id :| IsNear(h, root, maxDepth, id) && IsFar(h, root, maxDepth, id);
      var p :| IsSimplePath(h, p, root, id) && |p| - 1 <= maxDepth;
      var q :| IsSimplePath(h, q, root, id) && |q| - 1 == maxDepth + 1;
      var g := DetourIsMissed(h, hotel, root, maxDepth, p, q, id);
      assert !IsDecided(g, hotel, root, maxDepth);
    }
  }

  // ---- shapes without detours --------------------------------------------------------------------------

  /** Wherever all simple paths to a container have one length, the check decides. */
  lemma CheckDecidesEvenPaths(h: Heap, hotel: string, root: int, maxDepth: nat)
    requires WellFormed(h) && root in h
    requires forall p, q, id :: IsSimplePath(h, p, root, id) && IsSimplePath(h, q, root, id) ==> |p| == |q|
    ensures Walk(h, hotel, Ptr(root), 0, maxDepth, {}).ok <==> !ForeignWithin(h, hotel, root, maxDepth)
  {
    CheckDecidesForeignnessWithinLimit(h, hotel, root, maxDepth);
  }

  /** Each container has at most one parent, and the root has none. */
  ghost predicate IsTree(h: Heap, root: int)
  {
    && (forall a, b, c :: Edge(h, a, c) && Edge(h, b, c) ==> a == b)
    && forall a :: !Edge(h, a, root)
  }

  lemma {:induction false} TreePathsAgree(h: Heap, root: int, p: seq<int>, q: seq<int>, id: int)
    requires IsTree(h, root) && IsPathTo(h, p, root, id) && IsPathTo(h, q, root, id)
    ensures |p| == |q|
    decreases |p|
  {
    var m, n := |p| - 1, |q| - 1;
    assert m > 0 ==> Edge(h, p[m - 1], id);
    assert n > 0 ==> Edge(h, q[n - 1], id);
    if m > 0 {
      PrefixIsPath(h, p, m);
      PrefixIsPath(h, q, n);
      TreePathsAgree(h, root, p[..m], q[..n], p[m - 1]);
    }
  }

  lemma PrefixIsPath(h: Heap, p: seq<int>, n: nat)
    requires IsPath(h, p) && 0 < n <= |p|
    ensures IsPath(h, p[..n])
  {
    forall k | 0 < k < n
      ensures Edge(h, p[..n][k - 1], p[..n][k])
    {
      assert Edge(h, p[k - 1], p[k]);
    }
  }

  /** The check decides every tree, however deep. */
  lemma CheckDecidesTrees(h: Heap, hotel: string, root: int, maxDepth: nat)
    requires WellFormed(h) && root in h && IsTree(h, root)
    ensures Walk(h, hotel, Ptr(root), 0, maxDepth, {}).ok <==> !ForeignWithin(h, hotel, root, maxDepth)
  {
    forall p, q, id | IsSimplePath(h, p, root, id) && IsSimplePath(h, q, root, id)
      ensures |p| == |q|
    {
      TreePathsAgree(h, root, p, q, id);
    }
    CheckDecidesEvenPaths(h, hotel, root, maxDepth);
  }

  /** No path from `root` that meets each container at most once has more than `maxDepth` edges. */
  ghost predicate SimplePathsWithin(h: Heap, root: int, maxDepth: nat)
  {
    forall p, id :: IsSimplePath(h, p, root, id) ==> |p| - 1 <= maxDepth
  }

  lemma ReachableIsWithin(h: Heap, hotel: string, root: int, maxDepth: nat)
    requires SimplePathsWithin(h, root, maxDepth)
    ensures ReachesForeign(h, hotel, root) <==> ForeignWithin(h, hotel, root, maxDepth)
  {
    if ReachesForeign(h, hotel, root) {
      var b :| b in h && Reaches(h, root, b) && Foreign(h[b], hotel);
      var p :| IsPath(h, p) && p[0] == root && p[|p| - 1] == b;
      var q := Shortened(h, p, root, b);
      assert EndsForeign(h, hotel, q);
    }
    if ForeignWithin(h, hotel, root, maxDepth) {
      var p :| IsPath(h, p) && p[0] == root && |p| - 1 <= maxDepth && EndsForeign(h, hotel, p);
      assert Reaches(h, root, p[|p| - 1]);
    }
  }

  /** If no simple path from the payload is longer than the limit, the check decides reachability itself. */
  lemma CheckDecidesForeignness(h: Heap, hotel: string, root: int, maxDepth: nat)
    requires WellFormed(h) && root in h && SimplePathsWithin(h, root, maxDepth)
    ensures Walk(h, hotel, Ptr(root), 0, maxDepth, {}).ok <==> !ReachesForeign(h, hotel, root)
  {
    CheckDecidesForeignnessWithinLimit(h, hotel, root, maxDepth);
    ReachableIsWithin(h, hotel, root, maxDepth);
  }

  // ---- why detours matter ------------------------------------------------------------------------------

  /** Lists i, i + 1, ..., n, each holding the next, and then a dictionary of another hotel. */
  function Chain(i: nat, n: nat, other: string): (h: Heap)
    requires i <= n + 1
    ensures forall id :: id in h <==> i <= id <= n + 1
    ensures forall id :: i <= id <= n ==> h[id] == ListNode([Ptr(id + 1)])
    ensures h[n + 1] == DictNode(Some(other), [])
    decreases n + 1 - i
  {
    if i == n + 1 then map[n + 1 := DictNode(Some(other), [])]
    else Chain(i + 1, n, other)[i := ListNode([Ptr(i + 1)])]
  }

  /** A list that holds the start of the chain 1, ..., n and also, directly, the dictionary at its end. */
  function Shortcut(n: nat, other: string): Heap
    requires n >= 1
  {
    Chain(1, n, other)[0 := ListNode([Ptr(1), Ptr(n + 1)])]
  }

  lemma {:induction false} ChainIsMarked(n: nat, other: string, hotel: string, i: nat, visited: set<int>)
    requires 1 <= i <= n && WellFormed(Shortcut(n, other))
    requires forall j :: j in visited ==> j < i
    ensures var r := Walk(Shortcut(n, other), hotel, Ptr(i), i, n, visited); r.ok && n + 1 in r.visited
    decreases n - i
  {
    var h := Shortcut(n, other);
    var seen := visited + {i as int};
    var rs := Children(h[i]);
    assert rs == [Ptr(i + 1)];
    var child := Walk(h, hotel, Ptr(i + 1), i + 1, n, seen);
    if i < n {
      ChainIsMarked(n, other, hotel, i + 1, seen);
    }
    assert rs[1..] == [];
    assert WalkAll(h, hotel, rs, i + 1, n, seen) == child;
  }

  /**
   * The distance alone is not enough: for every limit there is a payload in which a foreign dictionary lies one
   * edge away and the check passes, because the walk marks it first at the end of a path that is too long.
   */
  lemma NearForeignDictCanPass(n: nat, other: string, hotel: string)
    requires n >= 1 && other != hotel
    ensures var h := Shortcut(n, other);
            && WellFormed(h) && Edge(h, 0, n + 1) && Foreign(h[n + 1], hotel)
            && Walk(h, hotel, Ptr(0), 0, n, {}).ok
  {
    var h := Shortcut(n, other);
    forall id | id in h
      ensures forall r :: r in Children(h[id]) ==> InHeap(h, r)
    {
    }
    var seen: set<int> := {0};
    ChainIsMarked(n, other, hotel, 1, seen);
    var rs := Children(h[0]);
    assert rs == [Ptr(1), Ptr(n + 1)];
    var middle := Walk(h, hotel, Ptr(1), 1, n, seen).visited;
    assert rs[1..] == [Ptr(n + 1)] && rs[1..][1..] == [];
    assert WalkAll(h, hotel, rs[1..], 1, n, middle).ok;
    assert {} + {0} == seen;
  }
}
