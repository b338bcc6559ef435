/**
 * The placement of the concept graph (client/src/components/Graph.tsx):
 * node ids grouped by level in input order, a deterministic jitter from a
 * 32-bit FNV-1a hash of the id, the position formulas, and the re-render
 * that keeps a position the user has dragged.
 */
module GraphLayout {
  import opened Wrappers
  import opened Types
  import opened GraphLevels

  /** `levels.get(id) || 0` */
  function LevelOf(levels: map<string, nat>, id: string): (l: nat)
    ensures id in levels ==> l == levels[id]
    ensures id !in levels ==> l == 0
  {
    if id in levels then levels[id] else 0
  }

  // ---------------------------------------------------------------------
  // Buckets
  // ---------------------------------------------------------------------

  /** The ids at level `l`, in the order they occur in `ids`. */
  function IdsAtLevel(levels: map<string, nat>, ids: seq<string>, l: nat): (r: seq<string>)
    ensures |r| <= |ids|
    ensures r != [] ==> r[0] in ids && LevelOf(levels, r[0]) == l
  {
    if ids == [] then []
    else
      var rest := IdsAtLevel(levels, ids[..|ids| - 1], l);
      assert rest != [] ==> rest[0] in ids[..|ids| - 1];
      if LevelOf(levels, ids[|ids| - 1]) == l then rest + [ids[|ids| - 1]] else rest
  }

  /** The bucket holds exactly the ids of level `l`. */
  lemma {:induction false} IdsAtLevelMembers(levels: map<string, nat>, ids: seq<string>, l: nat)
    ensures forall x :: x in IdsAtLevel(levels, ids, l) <==> x in ids && LevelOf(levels, x) == l
  {
    if ids != [] {
      IdsAtLevelMembers(levels, ids[..|ids| - 1], l);
      assert forall x :: x in ids <==> x in ids[..|ids| - 1] || x == ids[|ids| - 1];
    }
  }

  /** Bucketing keeps input order: the bucket of a concatenation is the concatenation of the buckets. */
  lemma {:induction false} IdsAtLevelAppend(levels: map<string, nat>, a: seq<string>, b: seq<string>, l: nat)
    ensures IdsAtLevel(levels, a + b, l) == IdsAtLevel(levels, a, l) + IdsAtLevel(levels, b, l)
    decreases |b|
  {
    if b == [] {
      assert a + b == a;
    } else {
      assert (a + b)[..|a + b| - 1] == a + b[..|b| - 1];
      IdsAtLevelAppend(levels, a, b[..|b| - 1], l);
    }
  }

  /** The buckets after pushing every id of `ids`, in order, onto the list of its level. */
  function BucketsOf(levels: map<string, nat>, ids: seq<string>): map<nat, seq<string>>
  {
    if ids == [] then map[]
    else
      var before := BucketsOf(levels, ids[..|ids| - 1]);
      var level := LevelOf(levels, ids[|ids| - 1]);
      before[level := (if level in before then before[level] else []) + [ids[|ids| - 1]]]
  }

  /** Each bucket is the ids of its level in input order, and each id's level has a bucket. */
  lemma {:induction false} BucketsOfContents(levels: map<string, nat>, ids: seq<string>)
    ensures forall l :: l in BucketsOf(levels, ids) ==>
              BucketsOf(levels, ids)[l] == IdsAtLevel(levels, ids, l) && BucketsOf(levels, ids)[l] != []
    ensures forall x :: x in ids ==> LevelOf(levels, x) in BucketsOf(levels, ids)
  {
    if ids != [] {
      var init := ids[..|ids| - 1];
      var last := ids[|ids| - 1];
      BucketsOfContents(levels, init);
      var level := LevelOf(levels, last);
      var before := BucketsOf(levels, init);
      assert forall x :: x in ids ==> x in init || x == last;
    }
  }

  /**
   * `nodesByLevel`: each bucket is non-empty and holds the node ids of its
   * level in input order, and every node's level has a bucket.
   */
  function Buckets(nodes: seq<IdeaNode>, levels: map<string, nat>): (buckets: map<nat, seq<string>>)
    ensures forall l :: l in buckets ==> buckets[l] == IdsAtLevel(levels, Ids(nodes), l) && buckets[l] != []
    ensures forall i :: 0 <= i < |nodes| ==> LevelOf(levels, nodes[i].id) in buckets
  {
    BucketsOfContents(levels, Ids(nodes));
    assert forall i :: 0 <= i < |nodes| ==> Ids(nodes)[i] in Ids(nodes);
    BucketsOf(levels, Ids(nodes))
  }

  /**
   * Every node is in the bucket of its level, and ids that are not nodes
   * (edge sources among them) never reach a bucket.
   */
  lemma BucketsContents(nodes: seq<IdeaNode>, levels: map<string, nat>)
    ensures forall i :: 0 <= i < |nodes| ==>
              LevelOf(levels, nodes[i].id) in Buckets(nodes, levels)
              && nodes[i].id in Buckets(nodes, levels)[LevelOf(levels, nodes[i].id)]
    ensures forall l, x :: l in Buckets(nodes, levels) && x in Buckets(nodes, levels)[l] ==>
              x in Ids(nodes) && LevelOf(levels, x) == l
  {
    var ids := Ids(nodes);
    forall l | l in Buckets(nodes, levels) {
      IdsAtLevelMembers(levels, ids, l);
    }
    assert forall i :: 0 <= i < |nodes| ==> ids[i] in ids;
  }

  /** An id lands in exactly one bucket, the one of its own level. */
  lemma ExactlyOneBucket(nodes: seq<IdeaNode>, levels: map<string, nat>, i: nat, l: nat)
    requires i < |nodes| && l in Buckets(nodes, levels)
    ensures nodes[i].id in Buckets(nodes, levels)[l] <==> l == LevelOf(levels, nodes[i].id)
  {
    BucketsContents(nodes, levels);
  }

  /** The forEach that fills `nodesByLevel`. */
  method BucketByLevel(nodes: seq<IdeaNode>, levels: map<string, nat>) returns (buckets: map<nat, seq<string>>)
    ensures buckets == Buckets(nodes, levels)
  {
    buckets := map[];
    var ids := Ids(nodes);
    for i := 0 to |nodes|
      invariant buckets == BucketsOf(levels, ids[..i])
    {
      assert ids[..i + 1][..i] == ids[..i];
      var level := LevelOf(levels, nodes[i].id);
      if level !in buckets {
        buckets := buckets[level := []];
      }
      buckets := buckets[level := buckets[level] + [nodes[i].id]];
    }
    assert ids[..|nodes|] == ids;
  }

  // ---------------------------------------------------------------------
  // The jitter
  // ---------------------------------------------------------------------

  const FnvOffset: nat := 2166136261
  const FnvPrime: nat := 16777619
  const TwoTo32: nat := 0x1_0000_0000

  /** `h ^= c; h = Math.imul(h, FnvPrime) >>> 0`: exclusive or, then the product modulo 2^32. */
  function FnvStep(h: nat, c: char): (h': nat)
    requires h < TwoTo32
    ensures h' < TwoTo32
  {
    var mixed := (h as bv32) ^ (c as int as bv32);
    (mixed as int * FnvPrime) % TwoTo32
  }

  /** The FNV-1a hash of `s`, one character code at a time. */
  function Fnv1a(s: string): (h: nat)
    ensures h < TwoTo32
  {
    if s == [] then FnvOffset else FnvStep(Fnv1a(s[..|s| - 1]), s[|s| - 1])
  }

  /** `((h % 1000) / 1000 * 2 - 1) * maxJitter` */
  function JitterScale(h: nat, maxJitter: real): real
  {
    ((h % 1000) as real / 1000.0 * 2.0 - 1.0) * maxJitter
  }

  /** A scaled hash lies in [-maxJitter, 0.998 * maxJitter]. */
  lemma JitterScaleBounds(h: nat, maxJitter: real)
    requires maxJitter >= 0.0
    ensures -maxJitter <= JitterScale(h, maxJitter) <= 0.998 * maxJitter
  {
    var unit := (h % 1000) as real / 1000.0 * 2.0 - 1.0;
    assert -1.0 <= unit <= 0.998;
    assert unit * maxJitter <= 0.998 * maxJitter by {
      assert (0.998 - unit) * maxJitter >= 0.0;
    }
    assert -maxJitter <= unit * maxJitter by {
      assert (unit + 1.0) * maxJitter >= 0.0;
    }
  }

  /** The jitter of `id`: its hash, scaled, so within [-maxJitter, 0.998 * maxJitter]. */
  function Jitter(id: string, maxJitter: real): (jitter: real)
    ensures maxJitter >= 0.0 ==> -maxJitter <= jitter <= 0.998 * maxJitter
  {
    if maxJitter >= 0.0 then
      JitterScaleBounds(Fnv1a(id), maxJitter);
      JitterScale(Fnv1a(id), maxJitter)
    else
      JitterScale(Fnv1a(id), maxJitter)
  }

  /** Hashing one more character of a prefix is one more step. */
  lemma FnvPrefixStep(id: string, i: nat)
    requires i < |id|
    ensures Fnv1a(id[..i + 1]) == FnvStep(Fnv1a(id[..i]), id[i])
  {
    assert id[..i + 1][..i] == id[..i];
  }

  /** `jitterForId`: the hash loop over the character codes, then the scaling. */
  method JitterForId(id: string, maxJitter: real) returns (jitter: real)
    ensures jitter == Jitter(id, maxJitter)
  {
    var h: nat := FnvOffset;
    for i := 0 to |id|
      invariant h == Fnv1a(id[..i])
    {
      FnvPrefixStep(id, i);
      h := FnvStep(h, id[i]);
    }
    assert id[..|id|] == id;
    assert h == Fnv1a(id);
    jitter := JitterScale(h, maxJitter);
  }

  // ---------------------------------------------------------------------
  // Positions
  // ---------------------------------------------------------------------

  datatype Position = Position(x: real, y: real)

  const LevelGap: real := 150.0
  const IntraLevelSpacing: real := 40.0
  const ColumnGap: real := 250.0
  /** `intraLevelSpacing * 0.45` */
  const NodeJitter: real := 40.0 * 0.45

  /** `s.indexOf(x)`: the first index of `x`, or -1. */
  function IndexOf(s: seq<string>, x: string): (r: int)
    ensures -1 <= r < |s|
    ensures r == -1 <==> x !in s
    ensures r >= 0 ==> s[r] == x && forall j :: 0 <= j < r ==> s[j] != x
  {
    if s == [] then -1
    else if s[0] == x then 0
    else
      var r := IndexOf(s[1..], x);
      if r == -1 then -1 else r + 1
  }

  /** `index - (count - 1) / 2` */
  function CenteredOffset(index: int, count: nat): real
  {
    index as real - (count as real - 1.0) / 2.0
  }

  /**
   * The preferred position of `id`: its column is centred within its level,
   * and the row is the level's base height plus a smaller centred offset and
   * the jitter, that is, plus 40/250 of the column.  A bucketed id's column
   * lies within its level's centred span.
   */
  function PositionFor(levels: map<string, nat>, buckets: map<nat, seq<string>>, id: string): (p: Position)
    ensures p.y == LevelOf(levels, id) as real * LevelGap + p.x * (IntraLevelSpacing / ColumnGap) + Jitter(id, NodeJitter)
    ensures var level := LevelOf(levels, id);
            var bucket := if level in buckets then buckets[level] else [];
            var half := (|bucket| as real - 1.0) / 2.0;
            id in bucket ==> -half * ColumnGap <= p.x <= half * ColumnGap
    ensures var level := LevelOf(levels, id);
            var bucket := if level in buckets then buckets[level] else [];
            id in bucket ==> p.x == CenteredOffset(IndexOf(bucket, id), |bucket|) * ColumnGap
  {
    var level := LevelOf(levels, id);
    var bucket := if level in buckets then buckets[level] else [];
    var offset := CenteredOffset(IndexOf(bucket, id), |bucket|);
    assert offset * ColumnGap * (IntraLevelSpacing / ColumnGap) == offset * IntraLevelSpacing;
    Position(offset * ColumnGap, level as real * LevelGap + offset * IntraLevelSpacing + Jitter(id, NodeJitter))
  }

  /** The positions of `initialNodes`, one per node, in node order. */
  function InitialPositions(nodes: seq<IdeaNode>, levels: map<string, nat>, buckets: map<nat, seq<string>>): (ps: seq<Position>)
    ensures |ps| == |nodes|
    ensures forall k :: 0 <= k < |nodes| ==> ps[k] == PositionFor(levels, buckets, nodes[k].id)
  {
    seq(|nodes|, k requires 0 <= k < |nodes| => PositionFor(levels, buckets, nodes[k].id))
  }

  /** The body of the `initialNodes` map for one node: its column offset, row and hashed jitter. */
  method PlaceNode(levels: map<string, nat>, buckets: map<nat, seq<string>>, id: string) returns (p: Position)
    ensures p == PositionFor(levels, buckets, id)
  {
    var level := LevelOf(levels, id);
    var bucket := if level in buckets then buckets[level] else [];
    var offset := CenteredOffset(IndexOf(bucket, id), |bucket|);
    var jitter := JitterForId(id, NodeJitter);
    p := Position(offset * ColumnGap, level as real * LevelGap + offset * IntraLevelSpacing + jitter);
  }

  /** The positions of one more node extend the positions of the nodes before it. */
  lemma InitialPositionsSnoc(nodes: seq<IdeaNode>, i: nat, levels: map<string, nat>, buckets: map<nat, seq<string>>)
    requires i < |nodes|
    ensures InitialPositions(nodes[..i + 1], levels, buckets)
            == InitialPositions(nodes[..i], levels, buckets) + [PositionFor(levels, buckets, nodes[i].id)]
  {
    var a := InitialPositions(nodes[..i + 1], levels, buckets);
    var b := InitialPositions(nodes[..i], levels, buckets) + [PositionFor(levels, buckets, nodes[i].id)];
    assert |a| == |b|;
    forall k | 0 <= k < |a| ensures a[k] == b[k] {
      assert nodes[..i + 1][k] == nodes[k];
      if k < i {
        assert nodes[..i][k] == nodes[k];
      }
    }
  }

  /** One render's layout: levels, buckets, then every node's position with its hashed jitter. */
  method InitialLayout(nodes: seq<IdeaNode>, edges: seq<IdeaEdge>) returns (positions: seq<Position>)
    ensures positions == InitialPositions(nodes, ComputedLevels(nodes, edges), Buckets(nodes, ComputedLevels(nodes, edges)))
  {
    var levels := ComputeLevels(nodes, edges);
    var buckets := BucketByLevel(nodes, levels);
    positions := [];
    for i := 0 to |nodes|
      invariant positions == InitialPositions(nodes[..i], levels, buckets)
    {
      var p := PlaceNode(levels, buckets, nodes[i].id);
      InitialPositionsSnoc(nodes, i, levels, buckets);
      positions := positions + [p];
    }
    assert nodes[..|nodes|] == nodes;
  }

  // ---------------------------------------------------------------------
  // Columns are centred
  // ---------------------------------------------------------------------

  predicate Distinct(s: seq<string>)
  {
    forall i, j :: 0 <= i < j < |s| ==> s[i] != s[j]
  }

  /** The columns of a level are mirror images of each other around 0. */
  lemma ColumnsMirror(i: nat, n: nat)
    requires i < n
    ensures CenteredOffset(i, n) == -CenteredOffset(n - 1 - i, n)
  {
  }

  function SumOffsets(k: nat, n: nat): real
  {
    if k == 0 then 0.0 else SumOffsets(k - 1, n) + CenteredOffset(k - 1, n)
  }

  lemma {:induction false} SumOffsetsClosed(k: nat, n: nat)
    ensures SumOffsets(k, n) == (k as real) * (k as real - 1.0) / 2.0 - (k as real) * (n as real - 1.0) / 2.0
  {
    if k > 0 {
      SumOffsetsClosed(k - 1, n);
      var K := k as real;
      var N := n as real;
      assert (K - 1.0) * (K - 2.0) / 2.0 + (K - 1.0) == K * (K - 1.0) / 2.0;
      assert -(K - 1.0) * (N - 1.0) / 2.0 - (N - 1.0) / 2.0 == -K * (N - 1.0) / 2.0;
    }
  }

  /** The sum of the x-coordinates of the first `k` ids of a bucket. */
  function ColumnSum(levels: map<string, nat>, buckets: map<nat, seq<string>>, bucket: seq<string>, k: nat): real
    requires k <= |bucket|
  {
    if k == 0 then 0.0 else ColumnSum(levels, buckets, bucket, k - 1) + PositionFor(levels, buckets, bucket[k - 1]).x
  }

  lemma {:induction false} ColumnSumIsOffsets(levels: map<string, nat>, buckets: map<nat, seq<string>>, l: nat, k: nat)
    requires l in buckets && k <= |buckets[l]| && Distinct(buckets[l])
    requires forall x :: x in buckets[l] ==> LevelOf(levels, x) == l
    ensures ColumnSum(levels, buckets, buckets[l], k) == SumOffsets(k, |buckets[l]|) * ColumnGap
  {
    if k > 0 {
      var bucket := buckets[l];
      ColumnSumIsOffsets(levels, buckets, l, k - 1);
      var x := bucket[k - 1];
      assert x in bucket;
      assert IndexOf(bucket, x) == k - 1;
    }
  }

  /** The offsets of a whole level sum to 0. */
  lemma SumOffsetsVanish(n: nat)
    ensures SumOffsets(n, n) == 0.0
  {
    SumOffsetsClosed(n, n);
  }

  /** With distinct node ids, a bucket holds distinct ids, all of its own level. */
  lemma BucketDistinct(nodes: seq<IdeaNode>, levels: map<string, nat>, l: nat)
    requires Distinct(Ids(nodes)) && l in Buckets(nodes, levels)
    ensures Distinct(Buckets(nodes, levels)[l])
    ensures forall x :: x in Buckets(nodes, levels)[l] ==> LevelOf(levels, x) == l
  {
    BucketsContents(nodes, levels);
    IdsAtLevelDistinct(levels, Ids(nodes), l);
  }

  /** With distinct ids, the x-coordinates of every level sum to 0. */
  lemma LevelColumnsCentered(nodes: seq<IdeaNode>, levels: map<string, nat>, l: nat)
    requires Distinct(Ids(nodes)) && l in Buckets(nodes, levels)
    ensures ColumnSum(levels, Buckets(nodes, levels), Buckets(nodes, levels)[l], |Buckets(nodes, levels)[l]|) == 0.0
  {
    var buckets := Buckets(nodes, levels);
    BucketDistinct(nodes, levels, l);
    ColumnSumIsOffsets(levels, buckets, l, |buckets[l]|);
    SumOffsetsVanish(|buckets[l]|);
  }

  lemma {:induction false} IdsAtLevelDistinct(levels: map<string, nat>, ids: seq<string>, l: nat)
    requires Distinct(ids)
    ensures Distinct(IdsAtLevel(levels, ids, l))
  {
    if ids != [] {
      var init := ids[..|ids| - 1];
      IdsAtLevelDistinct(levels, init, l);
      IdsAtLevelMembers(levels, init, l);
      var last := ids[|ids| - 1];
      assert last !in init;
    }
  }

  // ---------------------------------------------------------------------
  // Re-render
  // ---------------------------------------------------------------------

  /** A node as ReactFlow holds it: the id and the position it is shown at. */
  datatype FlowNode = FlowNode(id: string, position: Position)

  /** The index `flowNodes.find(n => n.id === id)` stops at, or -1. */
  function FindIndex(flow: seq<FlowNode>, id: string): (r: int)
    ensures -1 <= r < |flow|
    ensures r == -1 <==> forall j :: 0 <= j < |flow| ==> flow[j].id != id
    ensures r >= 0 ==> flow[r].id == id && forall j :: 0 <= j < r ==> flow[j].id != id
  {
    if flow == [] then -1
    else if flow[0].id == id then 0
    else
      var r := FindIndex(flow[1..], id);
      if r == -1 then -1 else r + 1
  }

  /** `flowNodes.find(n => n.id === id)?.position` */
  function FindPosition(flow: seq<FlowNode>, id: string): (r: Option<Position>)
    ensures r.None? <==> forall j :: 0 <= j < |flow| ==> flow[j].id != id
    ensures r.Some? ==> r.value == flow[FindIndex(flow, id)].position
  {
    var i := FindIndex(flow, id);
    if i == -1 then None else Some(flow[i].position)
  }

  /** The effect on re-render: a node ReactFlow already shows keeps its position; the others get the preferred one. */
  function RerenderPositions(nodes: seq<IdeaNode>, flow: seq<FlowNode>,
                             levels: map<string, nat>, buckets: map<nat, seq<string>>): (ps: seq<Position>)
    ensures |ps| == |nodes|
  {
    seq(|nodes|, k requires 0 <= k < |nodes| =>
      match FindPosition(flow, nodes[k].id)
      case Some(p) => p
      case None => PositionFor(levels, buckets, nodes[k].id))
  }

  /** The flow nodes of a layout. */
  function Flow(nodes: seq<IdeaNode>, positions: seq<Position>): (flow: seq<FlowNode>)
    requires |positions| == |nodes|
    ensures |flow| == |nodes|
  {
    seq(|nodes|, k requires 0 <= k < |nodes| => FlowNode(nodes[k].id, positions[k]))
  }

  /** A node ReactFlow shows keeps the position it is shown at; a node it does not show gets the preferred one. */
  lemma RerenderKeepsShown(nodes: seq<IdeaNode>, flow: seq<FlowNode>,
                           levels: map<string, nat>, buckets: map<nat, seq<string>>, k: nat)
    requires k < |nodes|
    ensures (exists j :: 0 <= j < |flow| && flow[j].id == nodes[k].id
               && RerenderPositions(nodes, flow, levels, buckets)[k] == flow[j].position
               && forall i :: 0 <= i < j ==> flow[i].id != nodes[k].id)
            || ((forall j :: 0 <= j < |flow| ==> flow[j].id != nodes[k].id)
               && RerenderPositions(nodes, flow, levels, buckets)[k] == PositionFor(levels, buckets, nodes[k].id))
  {
  }

  /**
   * After the user drags node `j` to `p`, a re-render shows `p` for that
   * node and the untouched positions for all the others.
   */
  lemma RerenderAfterDrag(nodes: seq<IdeaNode>, levels: map<string, nat>, buckets: map<nat, seq<string>>,
                          j: nat, p: Position)
    requires Distinct(Ids(nodes)) && j < |nodes|
    ensures var initial := InitialPositions(nodes, levels, buckets);
            var dragged := initial[j := p];
            RerenderPositions(nodes, Flow(nodes, dragged), levels, buckets) == dragged
  {
    var initial := InitialPositions(nodes, levels, buckets);
    var dragged := initial[j := p];
    var flow := Flow(nodes, dragged);
    var r := RerenderPositions(nodes, flow, levels, buckets);
    forall k | 0 <= k < |nodes| ensures r[k] == dragged[k] {
      assert flow[k].id == nodes[k].id;
      var i := FindIndex(flow, nodes[k].id);
      assert Ids(nodes)[i] == Ids(nodes)[k];
    }
  }
}
