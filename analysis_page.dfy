/**
 * The study page (client/src/pages/Analysis.tsx): editing the notes of a
 * concept, the progress counters over the node list, and the card shown
 * beside the graph for the highlighted concept.  The React state setters
 * are left to the framework; each operation here is the new value it computes.
 */
module AnalysisPage {
  import opened Wrappers
  import opened Types
  import opened JsValues

  // ---------------------------------------------------------------------
  // Notes
  // ---------------------------------------------------------------------

  /** `handleNotesChange(id, notes)`: the node list with the notes of every node `id` replaced. */
  function HandleNotesChange(nodes: seq<IdeaNode>, id: string, notes: string): (r: seq<IdeaNode>)
    ensures |r| == |nodes|
    ensures forall k :: 0 <= k < |nodes| ==>
              && r[k].id == nodes[k].id && r[k].title == nodes[k].title
              && r[k].description == nodes[k].description && r[k].sourceText == nodes[k].sourceText
              && r[k].userNotes == (if nodes[k].id == id then Some(notes) else nodes[k].userNotes)
  {
    seq(|nodes|, k requires 0 <= k < |nodes| =>
      if nodes[k].id == id then nodes[k].(userNotes := Some(notes)) else nodes[k])
  }

  /** The ids, and so the order of the cards and of the graph nodes, do not change. */
  lemma NotesKeepIds(nodes: seq<IdeaNode>, id: string, notes: string)
    ensures Ids(HandleNotesChange(nodes, id, notes)) == Ids(nodes)
  {
  }

  /** A node whose id differs is left exactly as it was. */
  lemma NotesLeaveOthers(nodes: seq<IdeaNode>, id: string, notes: string, k: nat)
    requires k < |nodes| && nodes[k].id != id
    ensures HandleNotesChange(nodes, id, notes)[k] == nodes[k]
  {
  }

  /** Typing twice into the same card keeps only the last text. */
  lemma NotesLastWins(nodes: seq<IdeaNode>, id: string, first: string, second: string)
    ensures HandleNotesChange(HandleNotesChange(nodes, id, first), id, second) == HandleNotesChange(nodes, id, second)
  {
  }

  /** Edits to two different cards do not interfere: their order does not matter. */
  lemma NotesCommute(nodes: seq<IdeaNode>, id1: string, notes1: string, id2: string, notes2: string)
    requires id1 != id2
    ensures HandleNotesChange(HandleNotesChange(nodes, id1, notes1), id2, notes2)
         == HandleNotesChange(HandleNotesChange(nodes, id2, notes2), id1, notes1)
  {
  }

  // ---------------------------------------------------------------------
  // Progress
  // ---------------------------------------------------------------------

  /** The node has notes that are not all whitespace. */
  predicate Completed(n: IdeaNode)
  {
    n.userNotes.Some? && !AllWhitespace(n.userNotes.value)
  }

  /** Completed is the filter's test: `n.userNotes?.trim()` is truthy. */
  lemma CompletedIsTrimmed(n: IdeaNode)
    ensures Completed(n) <==> n.userNotes.Some? && Trim(n.userNotes.value) != ""
  {
    if n.userNotes.Some? {
      TrimEmptyIff(n.userNotes.value);
    }
  }

  /** `nodes.filter(n => n.userNotes?.trim())` */
  function CompletedNodes(nodes: seq<IdeaNode>): (r: seq<IdeaNode>)
    ensures |r| <= |nodes|
  {
    if nodes == [] then []
    else (if Completed(nodes[0]) then [nodes[0]] else []) + CompletedNodes(nodes[1..])
  }

  /** The filter keeps exactly the completed nodes. */
  lemma {:induction false} CompletedNodesMembers(nodes: seq<IdeaNode>)
    ensures forall n :: n in CompletedNodes(nodes) <==> n in nodes && Completed(n)
  {
    if nodes != [] {
      CompletedNodesMembers(nodes[1..]);
      assert forall n :: n in nodes <==> n == nodes[0] || n in nodes[1..];
    }
  }

  /** The filter keeps every node exactly when every node is completed. */
  lemma {:induction false} CompletedNodesAll(nodes: seq<IdeaNode>)
    ensures |CompletedNodes(nodes)| == |nodes| <==> forall k :: 0 <= k < |nodes| ==> Completed(nodes[k])
  {
    if nodes != [] {
      CompletedNodesAll(nodes[1..]);
      assert forall k :: 1 <= k < |nodes| ==> nodes[k] == nodes[1..][k - 1];
      if !Completed(nodes[0]) {
        assert |CompletedNodes(nodes)| <= |nodes[1..]|;
      }
    }
  }

  /** `completedCount`: at most the number of nodes, and equal to it exactly when every node is completed. */
  function CompletedCount(nodes: seq<IdeaNode>): (count: nat)
    ensures count <= |nodes|
    ensures count == |nodes| <==> forall k :: 0 <= k < |nodes| ==> Completed(nodes[k])
  {
    CompletedNodesAll(nodes);
    |CompletedNodes(nodes)|
  }

  /** Filtering distributes over concatenation. */
  lemma {:induction false} CompletedNodesAppend(a: seq<IdeaNode>, b: seq<IdeaNode>)
    ensures CompletedNodes(a + b) == CompletedNodes(a) + CompletedNodes(b)
  {
    if a == [] {
      assert a + b == b;
    } else {
      var head := if Completed(a[0]) then [a[0]] else [];
      assert CompletedNodes(a) == head + CompletedNodes(a[1..]);
      calc {
        CompletedNodes(a + b);
      == { assert (a + b)[0] == a[0] && (a + b)[1..] == a[1..] + b; }
        head + CompletedNodes(a[1..] + b);
      == { CompletedNodesAppend(a[1..], b); }
        head + (CompletedNodes(a[1..]) + CompletedNodes(b));
      }
    }
  }

  /** Counting distributes over concatenation: each part of the list counts its own completed nodes. */
  lemma CompletedCountAppend(a: seq<IdeaNode>, b: seq<IdeaNode>)
    ensures CompletedCount(a + b) == CompletedCount(a) + CompletedCount(b)
  {
    CompletedNodesAppend(a, b);
  }

  /** Writing notes that are not blank never lowers the count; blank notes never raise it. */
  lemma NotesChangeCount(nodes: seq<IdeaNode>, id: string, notes: string)
    ensures Trim(notes) != "" ==> CompletedCount(nodes) <= CompletedCount(HandleNotesChange(nodes, id, notes))
    ensures Trim(notes) == "" ==> CompletedCount(HandleNotesChange(nodes, id, notes)) <= CompletedCount(nodes)
  {
    TrimEmptyIff(notes);
    NotesChangeFilter(nodes, id, notes);
  }

  /** The same, with blankness stated as all-whitespace. */
  lemma {:induction false} NotesChangeFilter(nodes: seq<IdeaNode>, id: string, notes: string)
    ensures !AllWhitespace(notes) ==> |CompletedNodes(nodes)| <= |CompletedNodes(HandleNotesChange(nodes, id, notes))|
    ensures AllWhitespace(notes) ==> |CompletedNodes(HandleNotesChange(nodes, id, notes))| <= |CompletedNodes(nodes)|
  {
    if nodes != [] {
      var r := HandleNotesChange(nodes, id, notes);
      NotesChangeFilter(nodes[1..], id, notes);
      assert r[1..] == HandleNotesChange(nodes[1..], id, notes);
      assert CompletedNodes(r) == (if Completed(r[0]) then [r[0]] else []) + CompletedNodes(r[1..]);
      assert CompletedNodes(nodes) == (if Completed(nodes[0]) then [nodes[0]] else []) + CompletedNodes(nodes[1..]);
    }
  }

  /**
   * `Math.round(x)` for a non-negative rational x = num/den: the nearest
   * integer, halves rounded up.
   */
  function RoundHalfUp(num: nat, den: nat): (r: nat)
    requires den > 0
    ensures 2 * den * r <= 2 * num + den < 2 * den * (r + 1)
  {
    (2 * num + den) / (2 * den)
  }

  /** `progressPercent`: 0 without nodes, else `completedCount / totalCount * 100` rounded. */
  function ProgressPercent(completed: nat, total: nat): (r: nat)
    ensures total == 0 ==> r == 0
    ensures total > 0 ==> 2 * total * r <= 200 * completed + total < 2 * total * (r + 1)
  {
    if total > 0 then RoundHalfUp(100 * completed, total) else 0
  }

  /** A positive factor does not change the sign. */
  lemma FactorSign(t: int, x: int)
    requires t > 0
    ensures t * x <= 0 ==> x <= 0
    ensures t * x < 0 ==> x < 0
  {
    if x > 0 {
      assert t * x >= t;
    }
  }

  /** The percentage lies in [0, 100]; nothing done gives 0 and everything done gives 100. */
  lemma ProgressBounds(completed: nat, total: nat)
    requires completed <= total
    ensures 0 <= ProgressPercent(completed, total) <= 100
    ensures completed == 0 ==> ProgressPercent(completed, total) == 0
    ensures 0 < total && completed == total ==> ProgressPercent(completed, total) == 100
  {
    var r: int := ProgressPercent(completed, total);
    if total > 0 {
      var t: int := total;
      assert 2 * t * r <= 201 * t;
      assert t * (2 * r - 201) <= 0;
      FactorSign(t, 2 * r - 201);
      if completed == total {
        assert t * (199 - 2 * r) < 0;
        FactorSign(t, 199 - 2 * r);
      }
      if completed == 0 {
        assert t * (2 * r - 1) <= 0;
        FactorSign(t, 2 * r - 1);
      }
    }
  }

  /** The page's progress over its node list lies in [0, 100]. */
  lemma PageProgressBounds(nodes: seq<IdeaNode>)
    ensures 0 <= ProgressPercent(CompletedCount(nodes), |nodes|) <= 100
  {
    ProgressBounds(CompletedCount(nodes), |nodes|);
  }

  /** The bar turns green at 100% before the last card is done once there are 200 of them. */
  lemma AlmostDoneShowsComplete()
    ensures ProgressPercent(199, 200) == 100
  {
  }

  // ---------------------------------------------------------------------
  // The highlighted card
  // ---------------------------------------------------------------------

  /** `nodes.find(n => n.id === id)` */
  function FindNode(nodes: seq<IdeaNode>, id: string): (r: Option<IdeaNode>)
    ensures r.None? <==> forall k :: 0 <= k < |nodes| ==> nodes[k].id != id
    ensures r.Some? ==> exists k :: 0 <= k < |nodes| && nodes[k] == r.value && r.value.id == id
                                    && forall j :: 0 <= j < k ==> nodes[j].id != id
  {
    if nodes == [] then None
    else if nodes[0].id == id then Some(nodes[0])
    else
      var r := FindNode(nodes[1..], id);
      assert forall k :: 1 <= k < |nodes| ==> nodes[k] == nodes[1..][k - 1];
      assert r.Some? ==>
               exists k :: 1 <= k < |nodes| && nodes[k] == r.value && r.value.id == id
                           && forall j :: 0 <= j < k ==> nodes[j].id != id
      by {
        if r.Some? {
          var k :| 0 <= k < |nodes[1..]| && nodes[1..][k] == r.value && r.value.id == id
                   && forall j :: 0 <= j < k ==> nodes[1..][j].id != id;
          assert nodes[k + 1] == r.value;
          assert forall j :: 1 <= j < k + 1 ==> nodes[j] == nodes[1..][j - 1];
        }
      }
      r
  }

  /**
   * The card shown for `highlightedNode`: none while nothing (or the empty
   * id, which is falsy) is highlighted, else the first node with that id.
   */
  function SelectedNode(nodes: seq<IdeaNode>, highlighted: Option<string>): (r: Option<IdeaNode>)
    ensures highlighted.None? || highlighted == Some("") ==> r.None?
    ensures highlighted.Some? && highlighted.value != "" ==> r == FindNode(nodes, highlighted.value)
  {
    if highlighted.Some? && highlighted.value != "" then FindNode(nodes, highlighted.value) else None
  }

  /** After notes are typed into the shown card, the card shows the new notes and is otherwise the same. */
  lemma {:induction false} SelectedShowsNotes(nodes: seq<IdeaNode>, id: string, notes: string)
    requires id != ""
    ensures SelectedNode(HandleNotesChange(nodes, id, notes), Some(id)).Some? <==> SelectedNode(nodes, Some(id)).Some?
    ensures SelectedNode(nodes, Some(id)).Some? ==>
              SelectedNode(HandleNotesChange(nodes, id, notes), Some(id))
              == Some(SelectedNode(nodes, Some(id)).value.(userNotes := Some(notes)))
  {
    FindAfterNotes(nodes, id, notes);
  }

  lemma {:induction false} FindAfterNotes(nodes: seq<IdeaNode>, id: string, notes: string)
    ensures FindNode(HandleNotesChange(nodes, id, notes), id).Some? <==> FindNode(nodes, id).Some?
    ensures FindNode(nodes, id).Some? ==>
              FindNode(HandleNotesChange(nodes, id, notes), id) == Some(FindNode(nodes, id).value.(userNotes := Some(notes)))
  {
    if nodes != [] && nodes[0].id != id {
      FindAfterNotes(nodes[1..], id, notes);
      assert HandleNotesChange(nodes, id, notes)[1..] == HandleNotesChange(nodes[1..], id, notes);
    }
  }
}
