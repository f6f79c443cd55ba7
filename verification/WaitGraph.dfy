/** Walks in the waits-for graph, and the depth-first search for a cycle through a root. */
module WaitGraph {
  import opened PoolState

  /** Every transaction the graph mentions. */
  function Mentioned(waits: WaitsFor): set<Tid> {
    waits.Keys + set t, u | t in waits && u in waits[t] :: u
  }

  /** `v` is closed under edges and no edge from it leads to the root. */
  ghost predicate Explored(waits: WaitsFor, root: Tid, v: set<Tid>, seen: set<Tid>) {
    forall x | x in v :: Edges(waits, x) <= seen && root !in Edges(waits, x)
  }

  lemma TailWalks(waits: WaitsFor, p: seq<Tid>)
    requires IsWalk(waits, p) && |p| > 2
    ensures IsWalk(waits, p[1..])
  {
    var q := p[1..];
    forall i | 0 <= i < |q| - 1
      ensures q[i + 1] in Edges(waits, q[i])
    {
      assert p[(i + 1) + 1] in Edges(waits, p[i + 1]);
    }
  }

  /** A walk that leaves a node of a set closed under edges stays in the set. */
  lemma {:induction false} WalkStays(waits: WaitsFor, root: Tid, v: set<Tid>, p: seq<Tid>)
    requires IsWalk(waits, p) && Explored(waits, root, v, v) && p[0] in v
    ensures p[|p| - 1] in v && p[|p| - 1] != root
  {
    if |p| == 2 {
      assert p[1] in Edges(waits, p[0]);
    } else {
      var q := p[1..];
      assert p[1] in Edges(waits, p[0]);
      TailWalks(waits, p);
      WalkStays(waits, root, v, q);
    }
  }

  lemma ExtendWalk(waits: WaitsFor, a: Tid, x: Tid, b: Tid, p: seq<Tid>)
    requires x in Edges(waits, a) && WalkBetween(waits, p, x, b)
    ensures WalkBetween(waits, [a] + p, a, b)
  {
    var q := [a] + p;
    forall i | 0 <= i < |q| - 1
      ensures q[i + 1] in Edges(waits, q[i])
    {
      if i > 0 {
        assert p[i] in Edges(waits, p[i - 1]);
      }
    }
  }

  /** An empty answer means that no walk leads from the root back to itself. */
  lemma NoWalkBack(waits: WaitsFor, root: Tid, v: set<Tid>)
    requires Explored(waits, root, v, v)
    requires Edges(waits, root) <= v && root !in Edges(waits, root)
    ensures !Reaches(waits, root, root)
  {
    forall p | IsWalk(waits, p) && p[0] == root
      ensures p[|p| - 1] != root
    {
      assert p[1] in Edges(waits, p[0]);
      if |p| > 2 {
        var q := p[1..];
        TailWalks(waits, p);
        WalkStays(waits, root, v, q);
      }
    }
  }

  /**
    `deadLockPrevent` below the node `node`, whose neighbours are `tidMap`.  `visited` is
    shared by the whole search.  A negative answer leaves every newly visited node fully
    explored; a positive one comes with a walk from `node` to the root.
   */
  method DeadLockPrevent(waits: WaitsFor, root: Tid, ghost node: Tid, tidMap: set<Tid>, visited: set<Tid>)
      returns (found: bool, seen: set<Tid>)
    requires tidMap == Edges(waits, node)
    ensures visited <= seen
    ensures found ==> Reaches(waits, node, root)
    ensures !found ==> root !in tidMap && tidMap <= seen && Explored(waits, root, seen - visited, seen)
    decreases Mentioned(waits) - visited
  {
    seen := visited;
    if root in tidMap {
      assert WalkBetween(waits, [node, root], node, root);
      return true, seen;
    }
    var rest := tidMap;
    while rest != {}
      invariant rest <= tidMap && visited <= seen && tidMap - rest <= seen
      invariant Explored(waits, root, seen - visited, seen)
      decreases |rest|
    {
      var tid :| tid in rest;
      rest := rest - {tid};
      if tid !in seen {
        assert tid in Mentioned(waits) - visited;
        var before := seen;
        var below, seen' := DeadLockPrevent(waits, root, tid, Edges(waits, tid), seen + {tid});
        seen := seen';
        if below {
          var p :| WalkBetween(waits, p, tid, root);
          ExtendWalk(waits, node, tid, root, p);
          return true, seen;
        }
      }
    }
    found := false;
  }

  /** The whole search answers exactly whether a non-empty walk leads from `root` back to `root`. */
  method HasCycle(waits: WaitsFor, root: Tid) returns (found: bool)
    ensures found <==> Reaches(waits, root, root)
  {
    var seen;
    found, seen := DeadLockPrevent(waits, root, root, Edges(waits, root), {});
    if !found {
      assert seen - {} == seen;
      NoWalkBack(waits, root, seen);
    }
  }
}
