/**
 * The hierarchy levels of the concept graph (client/src/components/Graph.tsx,
 * `calculateLevel`).  `Calc` is the specification: the recursion over an
 * explicit memo of stored levels and visited ids.  `LevelTable` is the
 * closure state of the component (the `levels` map and the `visited` set)
 * with the recursive method that fills it, proved to follow `Calc`.
 */
module GraphLevels {
  import opened Types

  /** The two maps `calculateLevel` closes over. */
  datatype Memo = Memo(levels: map<string, nat>, visited: set<string>)

  /** Every id some edge starts from. */
  function Sources(edges: seq<IdeaEdge>): (s: set<string>)
    ensures forall e :: e in edges ==> e.from in s
  {
    set e | e in edges :: e.from
  }

  predicate HasIncoming(edges: seq<IdeaEdge>, id: string)
  {
    exists e :: e in edges && e.to == id
  }

  /** `edges.filter(e => e.to === id).map(e => e.from)`: the parents of `id`, in edge order. */
  function Parents(edges: seq<IdeaEdge>, id: string): (ps: seq<string>)
    ensures forall p :: p in ps <==> exists e :: e in edges && e.to == id && e.from == p
    ensures |ps| == 0 <==> !HasIncoming(edges, id)
  {
    if edges == [] then []
    else
      var rest := Parents(edges[1..], id);
      assert forall e :: e in edges[1..] ==> e in edges;
      assert forall e :: e in edges ==> e == edges[0] || e in edges[1..];
      if edges[0].to == id then [edges[0].from] + rest else rest
  }

  /** The ids that are being computed: visited but without a stored level. */
  function Stack(m: Memo): set<string>
  {
    m.visited - m.levels.Keys
  }

  /** Stored levels stay as they were and visited ids stay visited. */
  predicate Extends(m: Memo, m': Memo)
  {
    m.visited <= m'.visited
    && forall k :: k in m.levels ==> k in m'.levels && m'.levels[k] == m.levels[k]
  }

  /** Stored ids were visited, and a stored level is 0 exactly for an id without an incoming edge. */
  predicate MemoValid(edges: seq<IdeaEdge>, m: Memo)
  {
    && m.levels.Keys <= m.visited
    && forall k :: k in m.levels ==> (m.levels[k] == 0 <==> !HasIncoming(edges, k))
  }

  /**
   * `calculateLevel(id)` from memo `m`: the level it returns and the memo it
   * leaves.  A stored id returns its level; an id still being computed
   * returns 0 (the cycle breaker); otherwise the id is marked visited and
   * stored as 0 without parents, else as one more than its highest parent.
   * It terminates because every recursive call sees a larger visited set.
   */
  function Calc(edges: seq<IdeaEdge>, m: Memo, id: string): (r: (nat, Memo))
    ensures m.visited <= r.1.visited
    ensures id in Stack(m) ==> r == (0, m)
    ensures id !in Stack(m) ==> id in r.1.levels && r.0 == r.1.levels[id]
    decreases Sources(edges) + {id} - m.visited, 0
  {
    if id in m.levels then (m.levels[id], m)
    else if id in m.visited then (0, m)
    else
      var m1 := Memo(m.levels, m.visited + {id});
      var ps := Parents(edges, id);
      if |ps| == 0 then (0, Memo(m.levels[id := 0], m1.visited))
      else
        var (top, m2) := MaxOfParents(edges, ps, m1, 0);
        (top + 1, Memo(m2.levels[id := top + 1], m2.visited))
  }

  /**
   * `Math.max(acc, ...ps.map(calculateLevel))`, the parents computed left
   * to right, each on the memo its predecessor left.
   */
  function MaxOfParents(edges: seq<IdeaEdge>, ps: seq<string>, m: Memo, acc: nat): (r: (nat, Memo))
    requires forall p :: p in ps ==> p in Sources(edges)
    ensures m.visited <= r.1.visited
    ensures acc <= r.0
    decreases Sources(edges) - m.visited, |ps|
  {
    if |ps| == 0 then (acc, m)
    else
      var (level, m1) := Calc(edges, m, ps[0]);
      MaxOfParents(edges, ps[1..], m1, if level > acc then level else acc)
  }

  /** One step of the fold: the first parent is computed, then the rest from the memo it leaves. */
  lemma MaxOfParentsStep(edges: seq<IdeaEdge>, ps: seq<string>, i: nat, m: Memo, acc: nat)
    requires i < |ps| && forall p :: p in ps ==> p in Sources(edges)
    ensures var c := Calc(edges, m, ps[i]);
            MaxOfParents(edges, ps[i..], m, acc) == MaxOfParents(edges, ps[i + 1..], c.1, if c.0 > acc then c.0 else acc)
  {
    assert ps[i..][0] == ps[i] && ps[i..][1..] == ps[i + 1..];
  }

  /**
   * A call keeps every stored level and visited id, leaves the stack as it
   * found it, and keeps the memo valid.
   */
  lemma {:induction false} CalcFrame(edges: seq<IdeaEdge>, m: Memo, id: string)
    ensures Extends(m, Calc(edges, m, id).1) && Stack(Calc(edges, m, id).1) == Stack(m)
    ensures MemoValid(edges, m) ==> MemoValid(edges, Calc(edges, m, id).1)
    decreases Sources(edges) + {id} - m.visited, 0
  {
    if id !in m.levels && id !in m.visited {
      var m1 := Memo(m.levels, m.visited + {id});
      var ps := Parents(edges, id);
      if |ps| > 0 {
        MaxFrame(edges, ps, m1, 0);
        var r := MaxOfParents(edges, ps, m1, 0);
        assert Stack(r.1) == Stack(m) + {id};
        assert Calc(edges, m, id).1 == Memo(r.1.levels[id := r.0 + 1], r.1.visited);
      }
    }
  }

  /** The same for the fold over the parents. */
  lemma {:induction false} MaxFrame(edges: seq<IdeaEdge>, ps: seq<string>, m: Memo, acc: nat)
    requires forall p :: p in ps ==> p in Sources(edges)
    ensures Extends(m, MaxOfParents(edges, ps, m, acc).1) && Stack(MaxOfParents(edges, ps, m, acc).1) == Stack(m)
    ensures MemoValid(edges, m) ==> MemoValid(edges, MaxOfParents(edges, ps, m, acc).1)
    decreases Sources(edges) - m.visited, |ps|
  {
    if |ps| > 0 {
      var c := Calc(edges, m, ps[0]);
      CalcFrame(edges, m, ps[0]);
      assert forall p :: p in ps[1..] ==> p in ps;
      MaxFrame(edges, ps[1..], c.1, if c.0 > acc then c.0 else acc);
    }
  }

  /** `nodes.forEach(node => calculateLevel(node.id))` over `ids`, from memo `m`. */
  function LevelsFor(edges: seq<IdeaEdge>, ids: seq<string>, m: Memo): (r: Memo)
    ensures Extends(m, r) && Stack(r) == Stack(m)
    ensures MemoValid(edges, m) ==> MemoValid(edges, r)
    ensures Stack(m) == {} ==> forall i :: 0 <= i < |ids| ==> ids[i] in r.levels
  {
    if ids == [] then m
    else
      var before := LevelsFor(edges, ids[..|ids| - 1], m);
      CalcFrame(edges, before, ids[|ids| - 1]);
      Calc(edges, before, ids[|ids| - 1]).1
  }

  const Empty: Memo := Memo(map[], {})

  /**
   * The `levels` map after the component's forEach over `nodes`: every node
   * has a level, and a level is 0 exactly for an id without an incoming edge.
   */
  function ComputedLevels(nodes: seq<IdeaNode>, edges: seq<IdeaEdge>): (levels: map<string, nat>)
    ensures forall i :: 0 <= i < |nodes| ==> nodes[i].id in levels
    ensures forall k :: k in levels ==> (levels[k] == 0 <==> !HasIncoming(edges, k))
  {
    assert Stack(Empty) == {};
    assert MemoValid(edges, Empty);
    LevelsFor(edges, Ids(nodes), Empty).levels
  }

  // ---------------------------------------------------------------------
  // Acyclic graphs: levels are longest-path depths
  // ---------------------------------------------------------------------

  /** A rank that every edge increases: the graph has no cycle. */
  predicate RankedBy(edges: seq<IdeaEdge>, rank: string -> nat)
  {
    forall e :: e in edges ==> rank(e.from) < rank(e.to)
  }

  /**
   * Stored id `k` has all its parents stored below it, and, when it has
   * parents, sits exactly one above its highest parent.
   */
  predicate DepthOk(edges: seq<IdeaEdge>, levels: map<string, nat>, k: string)
  {
    && k in levels
    && (forall p :: p in Parents(edges, k) ==> p in levels && levels[p] < levels[k])
    && (HasIncoming(edges, k) ==> exists p :: p in Parents(edges, k) && levels[k] == levels[p] + 1)
  }

  /** Every stored level is a longest-path depth. */
  predicate LongestPath(edges: seq<IdeaEdge>, levels: map<string, nat>)
  {
    forall k {:trigger DepthOk(edges, levels, k)} :: k in levels ==> DepthOk(edges, levels, k)
  }

  /** Grows the map by entries of its own, keeping every existing one. */
  predicate SubMap(levels: map<string, nat>, levels': map<string, nat>)
  {
    forall j :: j in levels ==> j in levels' && levels'[j] == levels[j]
  }

  lemma DepthOkExtends(edges: seq<IdeaEdge>, levels: map<string, nat>, levels': map<string, nat>, k: string)
    requires DepthOk(edges, levels, k) && SubMap(levels, levels')
    ensures DepthOk(edges, levels', k)
  {
    if HasIncoming(edges, k) {
      var p :| p in Parents(edges, k) && levels[k] == levels[p] + 1;
      assert levels'[k] == levels'[p] + 1;
    }
  }

  lemma LongestPathExtends(edges: seq<IdeaEdge>, levels: map<string, nat>, levels': map<string, nat>)
    requires LongestPath(edges, levels) && SubMap(levels, levels')
    requires forall k :: k in levels' && k !in levels ==> DepthOk(edges, levels', k)
    ensures LongestPath(edges, levels')
  {
    forall k | k in levels' ensures DepthOk(edges, levels', k) {
      if k in levels {
        assert DepthOk(edges, levels, k);
        DepthOkExtends(edges, levels, levels', k);
      }
    }
  }

  /** A fresh id with parents is stored one above the highest of them (`r`). */
  lemma CalcStored(edges: seq<IdeaEdge>, m: Memo, id: string, r: (nat, Memo))
    requires id !in m.levels && id !in m.visited && |Parents(edges, id)| > 0
    requires r == MaxOfParents(edges, Parents(edges, id), Memo(m.levels, m.visited + {id}), 0)
    ensures Calc(edges, m, id).1.levels == r.1.levels[id := r.0 + 1]
  {
  }

  /**
   * What computing the parents `ps` from accumulator `acc` leaves: every
   * level a longest-path depth, every parent stored at or below the
   * maximum, and the maximum either `acc` or some parent's level.
   */
  predicate ParentsDone(edges: seq<IdeaEdge>, ps: seq<string>, acc: nat, r: (nat, Memo))
  {
    && LongestPath(edges, r.1.levels)
    && (forall p :: p in ps ==> p in r.1.levels && r.1.levels[p] <= r.0)
    && (r.0 == acc || exists p :: p in ps && r.1.levels[p] == r.0)
  }

  /** Storing `id` one above its highest parent, all parents stored, keeps every level a longest-path depth. */
  lemma StoreAfterParents(edges: seq<IdeaEdge>, id: string, r: (nat, Memo))
    requires |Parents(edges, id)| > 0 && ParentsDone(edges, Parents(edges, id), 0, r)
    requires id !in r.1.levels
    ensures LongestPath(edges, r.1.levels[id := r.0 + 1])
  {
    var ps := Parents(edges, id);
    var q: string;
    if r.0 == 0 {
      q := ps[0];
      assert q in ps;
    } else {
      q :| q in ps && r.1.levels[q] == r.0;
    }
    var levels' := r.1.levels[id := r.0 + 1];
    assert levels'[q] == r.0;
    assert DepthOk(edges, levels', id);
    LongestPathExtends(edges, r.1.levels, levels');
  }

  /** Without a cycle, `id` is never found on the stack, and everything stored is a longest-path depth. */
  lemma {:induction false} CalcAcyclic(edges: seq<IdeaEdge>, rank: string -> nat, m: Memo, id: string)
    requires RankedBy(edges, rank) && LongestPath(edges, m.levels)
    requires forall s :: s in Stack(m) ==> rank(id) < rank(s)
    ensures id in Calc(edges, m, id).1.levels
    ensures LongestPath(edges, Calc(edges, m, id).1.levels)
    decreases Sources(edges) + {id} - m.visited, 0, 1
  {
    if id in m.levels || id in m.visited {
      assert id !in Stack(m);
      return;
    }
    var ps := Parents(edges, id);
    if |ps| == 0 {
      var levels' := m.levels[id := 0];
      assert Calc(edges, m, id).1.levels == levels';
      assert DepthOk(edges, levels', id);
      LongestPathExtends(edges, m.levels, levels');
    } else {
      ParentsAcyclic(edges, rank, m, id);
    }
  }

  /** While `id` is computed, its parents rank below everything on the stack. */
  lemma ParentsBelowStack(edges: seq<IdeaEdge>, rank: string -> nat, m: Memo, id: string)
    requires RankedBy(edges, rank)
    requires forall s :: s in Stack(m) ==> rank(id) < rank(s)
    requires id !in m.levels && id !in m.visited
    ensures id in Stack(Memo(m.levels, m.visited + {id}))
    ensures forall s, p :: s in Stack(Memo(m.levels, m.visited + {id})) && p in Parents(edges, id) ==> rank(p) < rank(s)
    ensures forall p :: p in Parents(edges, id) ==> p in Sources(edges)
  {
    var m1 := Memo(m.levels, m.visited + {id});
    assert Stack(m1) == Stack(m) + {id};
    forall s, p | s in Stack(m1) && p in Parents(edges, id) ensures rank(p) < rank(s) {
      var e :| e in edges && e.to == id && e.from == p;
    }
  }

  /** The case of `CalcAcyclic` where `id` has parents: they are all computed first (giving `r`), then `id` is stored. */
  lemma {:induction false} ParentsAcyclic(edges: seq<IdeaEdge>, rank: string -> nat, m: Memo, id: string)
    requires RankedBy(edges, rank) && LongestPath(edges, m.levels)
    requires forall s :: s in Stack(m) ==> rank(id) < rank(s)
    requires id !in m.levels && id !in m.visited && |Parents(edges, id)| > 0
    ensures LongestPath(edges, Calc(edges, m, id).1.levels)
    decreases Sources(edges) + {id} - m.visited, 0, 0
  {
    ParentsBelowStack(edges, rank, m, id);
    var m1 := Memo(m.levels, m.visited + {id});
    var r := MaxOfParents(edges, Parents(edges, id), m1, 0);
    MaxAcyclic(edges, rank, Parents(edges, id), m1, 0);
    MaxFrame(edges, Parents(edges, id), m1, 0);
    StoreAfterParents(edges, id, r);
    CalcStored(edges, m, id, r);
  }

  lemma {:induction false} MaxAcyclic(edges: seq<IdeaEdge>, rank: string -> nat, ps: seq<string>, m: Memo, acc: nat)
    requires forall p :: p in ps ==> p in Sources(edges)
    requires RankedBy(edges, rank) && LongestPath(edges, m.levels)
    requires forall s, p :: s in Stack(m) && p in ps ==> rank(p) < rank(s)
    ensures ParentsDone(edges, ps, acc, MaxOfParents(edges, ps, m, acc))
    decreases Sources(edges) - m.visited, |ps|, 0
  {
    if |ps| > 0 {
      var head := ps[0];
      var c := Calc(edges, m, head);
      assert head in ps;
      assert head !in Stack(m);
      CalcAcyclic(edges, rank, m, head);
      CalcFrame(edges, m, head);
      var acc' := if c.0 > acc then c.0 else acc;
      assert forall p :: p in ps[1..] ==> p in ps;
      MaxAcyclic(edges, rank, ps[1..], c.1, acc');
      MaxFrame(edges, ps[1..], c.1, acc');
      var r := MaxOfParents(edges, ps[1..], c.1, acc');
      assert MaxOfParents(edges, ps, m, acc) == r;
      ParentsDoneCons(edges, ps, acc, c, r);
    }
  }

  /** The first parent stored at `c.0`, the rest done from there: all of `ps` is done. */
  lemma ParentsDoneCons(edges: seq<IdeaEdge>, ps: seq<string>, acc: nat, c: (nat, Memo), r: (nat, Memo))
    requires |ps| > 0 && ps[0] in c.1.levels && c.1.levels[ps[0]] == c.0
    requires Extends(c.1, r.1) && (if c.0 > acc then c.0 else acc) <= r.0
    requires ParentsDone(edges, ps[1..], if c.0 > acc then c.0 else acc, r)
    ensures ParentsDone(edges, ps, acc, r)
  {
    var head := ps[0];
    var acc' := if c.0 > acc then c.0 else acc;
    assert r.1.levels[head] == c.0;
    forall p | p in ps ensures p in r.1.levels && r.1.levels[p] <= r.0 {
      if p != head { assert p in ps[1..]; }
    }
    if r.0 != acc && r.0 == acc' && acc' == c.0 {
      assert head in ps;
    } else if r.0 != acc {
      var p :| p in ps[1..] && r.1.levels[p] == r.0;
      assert p in ps;
    }
  }

  /** In a graph without cycles every edge goes strictly down a level, and each level is a longest-path depth. */
  lemma AcyclicLevels(nodes: seq<IdeaNode>, edges: seq<IdeaEdge>, rank: string -> nat)
    requires RankedBy(edges, rank)
    ensures LongestPath(edges, ComputedLevels(nodes, edges))
    ensures forall e :: e in edges && e.to in ComputedLevels(nodes, edges) ==>
              e.from in ComputedLevels(nodes, edges)
              && ComputedLevels(nodes, edges)[e.from] < ComputedLevels(nodes, edges)[e.to]
  {
    LevelsForAcyclic(edges, rank, Ids(nodes), Empty);
    var levels := ComputedLevels(nodes, edges);
    forall e | e in edges && e.to in levels ensures e.from in levels && levels[e.from] < levels[e.to] {
      assert DepthOk(edges, levels, e.to);
      assert e.from in Parents(edges, e.to);
    }
  }

  lemma {:induction false} LevelsForAcyclic(edges: seq<IdeaEdge>, rank: string -> nat, ids: seq<string>, m: Memo)
    requires RankedBy(edges, rank) && LongestPath(edges, m.levels) && Stack(m) == {}
    ensures LongestPath(edges, LevelsFor(edges, ids, m).levels)
  {
    if ids != [] {
      assert Stack(LevelsFor(edges, ids[..|ids| - 1], m)) == {};
      LevelsForAcyclic(edges, rank, ids[..|ids| - 1], m);
      CalcAcyclic(edges, rank, LevelsFor(edges, ids[..|ids| - 1], m), ids[|ids| - 1]);
    }
  }

  /** The cycle a -> b -> a, visited from a: b re-enters a and sees 0, so a = 2 and b = 1. */
  lemma TwoCycle()
    ensures var nodes := [IdeaNode("a", "", "", "", Wrappers.None), IdeaNode("b", "", "", "", Wrappers.None)];
            var edges := [IdeaEdge("a", "b", ""), IdeaEdge("b", "a", "")];
            ComputedLevels(nodes, edges) == map["a" := 2, "b" := 1]
  {
    var nodes := [IdeaNode("a", "", "", "", Wrappers.None), IdeaNode("b", "", "", "", Wrappers.None)];
    var edges := [IdeaEdge("a", "b", ""), IdeaEdge("b", "a", "")];
    assert Parents(edges, "a") == ["b"];
    assert Parents(edges, "b") == ["a"];
    var m0 := Memo(map[], {"a"});
    var mb := Memo(map[], {"a", "b"});
    assert Empty.visited + {"a"} == {"a"};
    assert m0.visited + {"b"} == {"a", "b"};
    assert Calc(edges, mb, "a") == (0, mb);
    assert MaxOfParents(edges, ["a"], mb, 0) == (0, mb);
    var mc := Memo(map["b" := 1], {"a", "b"});
    assert Calc(edges, m0, "b") == (1, mc);
    assert MaxOfParents(edges, ["b"], m0, 0) == (1, mc);
    var m1 := Memo(map["b" := 1, "a" := 2], {"a", "b"});
    assert mc.levels["a" := 2] == m1.levels;
    assert Calc(edges, Empty, "a") == (2, m1);
    assert Ids(nodes) == ["a", "b"];
    assert Ids(nodes)[..1] == ["a"] && Ids(nodes)[..1][..0] == [];
    assert LevelsFor(edges, [], Empty) == Empty;
    assert LevelsFor(edges, ["a"], Empty) == m1;
    assert Calc(edges, m1, "b") == (1, m1);
  }

  // ---------------------------------------------------------------------
  // The component state
  // ---------------------------------------------------------------------

  /** The `levels` map and `visited` set of one render, over that render's edges. */
  class LevelTable {
    const edges: seq<IdeaEdge>
    var levels: map<string, nat>
    var visited: set<string>

    function State(): Memo
      reads this
    {
      Memo(levels, visited)
    }

    constructor(edges: seq<IdeaEdge>)
      ensures this.edges == edges && State() == Empty
    {
      this.edges := edges;
      levels := map[];
      visited := {};
    }

    /** `calculateLevel(id)`: the level and the new maps are those `Calc` prescribes. */
    method CalculateLevel(id: string) returns (level: nat)
      modifies this
      ensures (level, State()) == Calc(edges, old(State()), id)
      decreases Sources(edges) + {id} - visited, 0
    {
      if id in levels {
        return levels[id];
      }
      if id in visited {
        return 0;
      }
      visited := visited + {id};
      var incoming := Parents(edges, id);
      if |incoming| == 0 {
        levels := levels[id := 0];
      } else {
        var maxParent := MaxParentLevel(incoming);
        levels := levels[id := maxParent + 1];
      }
      level := levels[id];
    }

    /** `Math.max(...incoming.map(calculateLevel))`, the parents computed left to right. */
    method MaxParentLevel(incoming: seq<string>) returns (maxParent: nat)
      requires forall p :: p in incoming ==> p in Sources(edges)
      modifies this
      ensures (maxParent, State()) == MaxOfParents(edges, incoming, old(State()), 0)
      decreases Sources(edges) - visited, |incoming|
    {
      ghost var m := State();
      ghost var target := MaxOfParents(edges, incoming, m, 0);
      maxParent := 0;
      var i := 0;
      while i < |incoming|
        invariant 0 <= i <= |incoming|
        invariant m.visited <= visited
        invariant target == MaxOfParents(edges, incoming[i..], State(), maxParent)
        decreases |incoming| - i
      {
        ghost var before := State();
        assert incoming[i] in incoming;
        MaxOfParentsStep(edges, incoming, i, before, maxParent);
        ghost var c := Calc(edges, before, incoming[i]);
        var parentLevel := CalculateLevel(incoming[i]);
        assert parentLevel == c.0 && State() == c.1;
        maxParent := if parentLevel > maxParent then parentLevel else maxParent;
        i := i + 1;
      }
    }
  }

  /** The top-level forEach: every node's level, computed on a fresh table. */
  method ComputeLevels(nodes: seq<IdeaNode>, edges: seq<IdeaEdge>) returns (levels: map<string, nat>)
    ensures levels == ComputedLevels(nodes, edges)
    ensures forall i :: 0 <= i < |nodes| ==> nodes[i].id in levels
    ensures forall k :: k in levels ==> (levels[k] == 0 <==> !HasIncoming(edges, k))
  {
    var table := new LevelTable(edges);
    var ids := Ids(nodes);
    for i := 0 to |nodes|
      invariant table.edges == edges
      invariant table.State() == LevelsFor(edges, ids[..i], Empty)
    {
      assert ids[..i + 1][..i] == ids[..i];
      var _ := table.CalculateLevel(ids[i]);
    }
    assert ids[..|nodes|] == ids;
    levels := table.levels;
  }
}
