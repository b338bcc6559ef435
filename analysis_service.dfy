/**
 * The analysis pipeline (server/src/services/analysis.service.ts): concept
 * extraction, relationship generation and the in-memory store of analyses.
 * The two completions are oracles from the variable part of their prompt
 * (the paper text, the concept list) to the LLM response; JSON.parse,
 * parseInt and uuid.v4 are parameters too.
 */
module AnalysisService {
  import opened Wrappers
  import opened JsValues
  import opened Types
  import opened LlmService

  const UntitledConcept: string := "Untitled Concept"
  const DefaultRelation: string := "relates to"
  const ConceptParseFailure: string := "Failed to parse concept extraction results"

  // ---------------------------------------------------------------------
  // extractConcepts
  // ---------------------------------------------------------------------

  /** `raw.key || fallback`, on a value known not to be nullish. */
  function FieldOr(raw: JsValue, key: string, fallback: string): string
  {
    var field := OptGet(raw, key);
    if Truthy(field) then JsString(field) else fallback
  }

  /** A string field of a parsed object, with its default for a missing or empty one. */
  function StringFieldOr(fields: map<string, JsValue>, key: string, fallback: string): string
  {
    if key in fields && fields[key].Str? && fields[key].s != "" then fields[key].s else fallback
  }

  /** An object whose fields are all strings: the shape the prompt asks for. */
  predicate StringFields(raw: JsValue)
  {
    raw.Obj? && forall key :: key in raw.fields ==> raw.fields[key].Str?
  }

  /**
   * The node built from one raw concept.  Reading `.title` of null or
   * undefined throws; otherwise each field takes its default.
   */
  function ConceptNode(raw: JsValue, id: string): (r: Result<IdeaNode>)
    ensures r.Err? <==> Nullish(raw)
    ensures r.Ok? ==> r.value.id == id && r.value.userNotes.None?
    ensures StringFields(raw) ==>
              r == Ok(IdeaNode(id,
                               StringFieldOr(raw.fields, "title", UntitledConcept),
                               StringFieldOr(raw.fields, "description", ""),
                               StringFieldOr(raw.fields, "sourceText", StringFieldOr(raw.fields, "quote", "")),
                               None))
  {
    if Nullish(raw) then Err(ReadErrorMessage(raw, "title"))
    else
      var sourceText := OptGet(raw, "sourceText");
      Ok(IdeaNode(id,
                  FieldOr(raw, "title", UntitledConcept),
                  FieldOr(raw, "description", ""),
                  if Truthy(sourceText) then JsString(sourceText) else FieldOr(raw, "quote", ""),
                  None))
  }

  /** `parsed.key || parsed.alternative || []`, which must then be an array. */
  function ListField(parsed: JsValue, key: string, alternative: string): (r: Result<seq<JsValue>>)
    ensures Nullish(parsed) ==> r.Err?
    ensures !Nullish(parsed) && Truthy(OptGet(parsed, key)) ==>
              (r.Ok? <==> OptGet(parsed, key).Arr?) && (r.Ok? ==> r.value == OptGet(parsed, key).items)
    ensures !Nullish(parsed) && !Truthy(OptGet(parsed, key)) && Truthy(OptGet(parsed, alternative)) ==>
              (r.Ok? <==> OptGet(parsed, alternative).Arr?) && (r.Ok? ==> r.value == OptGet(parsed, alternative).items)
    ensures !Nullish(parsed) && !Truthy(OptGet(parsed, key)) && !Truthy(OptGet(parsed, alternative)) ==> r == Ok([])
    ensures parsed.Obj? && key in parsed.fields && parsed.fields[key].Arr? ==>
              r == Ok(parsed.fields[key].items)
    ensures parsed.Obj? && key !in parsed.fields && alternative in parsed.fields && parsed.fields[alternative].Arr? ==>
              r == Ok(parsed.fields[alternative].items)
    ensures parsed.Obj? && key !in parsed.fields && alternative !in parsed.fields ==> r == Ok([])
  {
    if Nullish(parsed) then Err(ReadErrorMessage(parsed, key))
    else
      var first := OptGet(parsed, key);
      var second := OptGet(parsed, alternative);
      var list := if Truthy(first) then first else if Truthy(second) then second else Arr([]);
      if list.Arr? then Ok(list.items) else Err(key + ".map is not a function")
  }

  /** A truthy first field decides, even when it is not an array and the alternative is. */
  lemma FirstFieldDecides(first: JsValue, items: seq<JsValue>)
    requires Truthy(first) && !first.Arr?
    ensures ListField(Obj(map["concepts" := first, "ideas" := Arr(items)]), "concepts", "ideas").Err?
  {
  }

  /** A present but falsy first field falls through to the alternative. */
  lemma FalsyFirstFallsThrough(first: JsValue, items: seq<JsValue>)
    requires !Truthy(first)
    ensures ListField(Obj(map["concepts" := first, "ideas" := Arr(items)]), "concepts", "ideas") == Ok(items)
  {
  }

  /**
   * The try block of both completions: `extractJSON(response.data)`, then
   * `parsed[key] || parsed[alternative] || []`; none when either step throws.
   */
  function ParsedList(response: LlmResponse, parse: string -> Option<JsValue>, key: string, alternative: string)
    : (r: Option<seq<JsValue>>)
    ensures r.Some? <==> response.Success? && ExtractJsonValue(response.data, parse).Ok?
                         && ListField(ExtractJsonValue(response.data, parse).value, key, alternative).Ok?
    ensures r.Some? ==> ListField(ExtractJsonValue(response.data, parse).value, key, alternative) == Ok(r.value)
  {
    if !response.Success? then None
    else
      match ExtractJsonValue(response.data, parse)
      case Err(_) => None
      case Ok(parsed) =>
        match ListField(parsed, key, alternative)
        case Err(_) => None
        case Ok(items) => Some(items)
  }

  /** `items.map(...)`: node `j` takes the `j`-th fresh id; a null or undefined item throws. */
  function ConceptNodes(items: seq<JsValue>, uuid: nat -> string): (r: Result<seq<IdeaNode>>)
    ensures r.Err? <==> exists j :: 0 <= j < |items| && Nullish(items[j])
    ensures r.Ok? ==> |r.value| == |items|
    ensures r.Ok? ==> forall j :: 0 <= j < |items| ==> Ok(r.value[j]) == ConceptNode(items[j], uuid(j))
  {
    if exists j :: 0 <= j < |items| && Nullish(items[j]) then
      Err("Cannot read properties of undefined (reading 'title')")
    else
      Ok(seq(|items|, j requires 0 <= j < |items| => ConceptNode(items[j], uuid(j)).value))
  }

  /** `'Failed to extract concepts: ' + response.error`, where a success has no error field. */
  function CompletionFailure(response: LlmResponse): (message: string)
    ensures response.Failure? ==> message == "Failed to extract concepts: " + response.error
    ensures response.Success? ==> message == "Failed to extract concepts: undefined"
  {
    "Failed to extract concepts: " + (if response.Failure? then response.error else "undefined")
  }

  /**
   * extractConcepts: a failed or empty completion is an error naming the
   * completion's error; any failure to parse or map its JSON is the one
   * parse error; otherwise one node per raw concept, in order.
   */
  function ExtractConcepts(text: string, conceptLlm: string -> LlmResponse,
                           parse: string -> Option<JsValue>, uuid: nat -> string): (r: Result<seq<IdeaNode>>)
    ensures (!conceptLlm(text).Success? || !Truthy(conceptLlm(text).data)) ==>
              r == Err(CompletionFailure(conceptLlm(text)))
    ensures conceptLlm(text).Success? && Truthy(conceptLlm(text).data) && r.Err? ==> r.error == ConceptParseFailure
    ensures conceptLlm(text).Success? && Truthy(conceptLlm(text).data) ==>
              (r.Ok? <==> ParsedList(conceptLlm(text), parse, "concepts", "ideas").Some?
                          && ConceptNodes(ParsedList(conceptLlm(text), parse, "concepts", "ideas").value, uuid).Ok?)
    ensures r.Ok? ==> r == ConceptNodes(ParsedList(conceptLlm(text), parse, "concepts", "ideas").value, uuid)
    ensures r.Ok? ==>
              exists parsed, items ::
                conceptLlm(text).Success? && ExtractJsonValue(conceptLlm(text).data, parse) == Ok(parsed)
                && ListField(parsed, "concepts", "ideas") == Ok(items)
                && |r.value| == |items|
                && forall j :: 0 <= j < |items| ==> Ok(r.value[j]) == ConceptNode(items[j], uuid(j))
  {
    var response := conceptLlm(text);
    if !response.Success? || !Truthy(response.data) then Err(CompletionFailure(response))
    else
      match ParsedList(response, parse, "concepts", "ideas")
      case None => Err(ConceptParseFailure)
      case Some(items) =>
        match ConceptNodes(items, uuid)
        case Err(_) => Err(ConceptParseFailure)
        case Ok(nodes) => Ok(nodes)
  }

  /**
   * A completion whose JSON lists concepts none of which is null or
   * undefined yields one node per listed concept, in order.
   */
  lemma ConceptsFromCompletion(text: string, conceptLlm: string -> LlmResponse, parse: string -> Option<JsValue>,
                               uuid: nat -> string, parsed: JsValue, items: seq<JsValue>)
    requires conceptLlm(text).Success? && Truthy(conceptLlm(text).data)
    requires ExtractJsonValue(conceptLlm(text).data, parse) == Ok(parsed)
    requires ListField(parsed, "concepts", "ideas") == Ok(items)
    requires forall j :: 0 <= j < |items| ==> !Nullish(items[j])
    ensures ExtractConcepts(text, conceptLlm, parse, uuid).Ok?
    ensures |ExtractConcepts(text, conceptLlm, parse, uuid).value| == |items|
    ensures forall j :: 0 <= j < |items| ==>
              Ok(ExtractConcepts(text, conceptLlm, parse, uuid).value[j]) == ConceptNode(items[j], uuid(j))
  {
  }

  /** With an id supply that never repeats, the extracted nodes have distinct ids. */
  lemma ExtractedIdsDistinct(text: string, conceptLlm: string -> LlmResponse, parse: string -> Option<JsValue>,
                             uuid: nat -> string)
    requires forall i: nat, j: nat :: i != j ==> uuid(i) != uuid(j)
    ensures ExtractConcepts(text, conceptLlm, parse, uuid).Ok? ==>
              forall i, j :: 0 <= i < j < |ExtractConcepts(text, conceptLlm, parse, uuid).value| ==>
                ExtractConcepts(text, conceptLlm, parse, uuid).value[i].id
                != ExtractConcepts(text, conceptLlm, parse, uuid).value[j].id
  {
    var r := ExtractConcepts(text, conceptLlm, parse, uuid);
    if r.Ok? {
      var items := ParsedList(conceptLlm(text), parse, "concepts", "ideas").value;
      forall i, j | 0 <= i < j < |r.value| ensures r.value[i].id != r.value[j].id {
        assert Ok(r.value[i]) == ConceptNode(items[i], uuid(i));
        assert Ok(r.value[j]) == ConceptNode(items[j], uuid(j));
      }
    }
  }

  // ---------------------------------------------------------------------
  // The concept list of the relationship prompt
  // ---------------------------------------------------------------------

  /** `${idx}: "${node.title}" - ${node.description}` */
  function ConceptLine(idx: nat, node: IdeaNode): string
  {
    NatToString(idx) + ": \"" + node.title + "\" - " + node.description
  }

  /** `lines.join('\n')` */
  function JoinLines(lines: seq<string>): (s: string)
    ensures |lines| == 0 ==> s == ""
  {
    if |lines| == 0 then ""
    else if |lines| == 1 then lines[0]
    else lines[0] + "\n" + JoinLines(lines[1..])
  }

  function ConceptLines(nodes: seq<IdeaNode>): (lines: seq<string>)
    ensures |lines| == |nodes|
    ensures forall i :: 0 <= i < |nodes| ==> lines[i] == ConceptLine(i, nodes[i])
  {
    seq(|nodes|, i requires 0 <= i < |nodes| => ConceptLine(i, nodes[i]))
  }

  function ConceptsList(nodes: seq<IdeaNode>): string
  {
    JoinLines(ConceptLines(nodes))
  }

  predicate NoNewline(s: string)
  {
    forall i :: 0 <= i < |s| ==> s[i] != '\n'
  }

  /** The first index of a newline, if any. */
  function NewlineIndex(s: string): (r: Option<nat>)
    ensures r.Some? ==> r.value < |s| && s[r.value] == '\n' && NoNewline(s[..r.value])
    ensures r.None? ==> NoNewline(s)
  {
    if s == [] then None
    else if s[0] == '\n' then Some(0)
    else match NewlineIndex(s[1..])
      case None => None
      case Some(k) => assert s[1..][..k] == s[1..k + 1]; Some(k + 1)
  }

  /** `s.split('\n')` */
  function SplitLines(s: string): (lines: seq<string>)
    ensures |lines| >= 1
    decreases |s|
  {
    match NewlineIndex(s)
    case None => [s]
    case Some(k) => [s[..k]] + SplitLines(s[k + 1..])
  }

  lemma SplitAfterLine(line: string, rest: string)
    requires NoNewline(line)
    ensures SplitLines(line + "\n" + rest) == [line] + SplitLines(rest)
  {
    var s := line + "\n" + rest;
    forall i | 0 <= i < |line| ensures s[i] != '\n' {
      assert s[i] == line[i];
    }
    assert s[|line|] == '\n';
    var k := NewlineIndex(s);
    if k.None? {
      assert false;
    } else {
      assert k.value == |line|;
      assert s[..|line|] == line;
      assert s[|line| + 1..] == rest;
    }
  }

  /** Splitting joined lines that have no newline of their own gives the lines back. */
  lemma {:induction false} SplitJoin(lines: seq<string>)
    requires |lines| >= 1
    requires forall i :: 0 <= i < |lines| ==> NoNewline(lines[i])
    ensures SplitLines(JoinLines(lines)) == lines
  {
    if |lines| > 1 {
      SplitAfterLine(lines[0], JoinLines(lines[1..]));
      SplitJoin(lines[1..]);
    }
  }

  /** The longest prefix of decimal digits. */
  function LeadingDigits(s: string): (ds: string)
    ensures |ds| <= |s| && ds == s[..|ds|]
    ensures forall i :: 0 <= i < |ds| ==> IsDigit(ds[i])
  {
    if s != [] && IsDigit(s[0]) then [s[0]] + LeadingDigits(s[1..]) else []
  }

  lemma {:induction false} LeadingDigitsOf(ds: string, rest: string)
    requires forall i :: 0 <= i < |ds| ==> IsDigit(ds[i])
    requires rest != [] && !IsDigit(rest[0])
    ensures LeadingDigits(ds + rest) == ds
  {
    if ds != [] {
      assert (ds + rest)[1..] == ds[1..] + rest;
      LeadingDigitsOf(ds[1..], rest);
    }
  }

  /** The index a concept line announces, read back from its leading digits. */
  function LineIndex(line: string): nat
  {
    DecimalValue(LeadingDigits(line))
  }

  /** Every line of the list reads back as its own position. */
  lemma ConceptsListIndices(nodes: seq<IdeaNode>)
    requires |nodes| >= 1
    requires forall i :: 0 <= i < |nodes| ==> NoNewline(nodes[i].title) && NoNewline(nodes[i].description)
    ensures |SplitLines(ConceptsList(nodes))| == |nodes|
    ensures forall i :: 0 <= i < |nodes| ==>
              SplitLines(ConceptsList(nodes))[i] == ConceptLine(i, nodes[i])
              && LineIndex(SplitLines(ConceptsList(nodes))[i]) == i
  {
    var lines := ConceptLines(nodes);
    forall i | 0 <= i < |nodes| ensures NoNewline(lines[i]) && LineIndex(lines[i]) == i {
      var digits := NatToString(i);
      var rest := ": \"" + nodes[i].title + "\" - " + nodes[i].description;
      assert lines[i] == digits + rest;
      forall k | 0 <= k < |lines[i]| ensures lines[i][k] != '\n' {
        if k < |digits| {
          assert lines[i][k] == digits[k];
        } else if k < |digits| + 3 {
        } else if k < |digits| + 3 + |nodes[i].title| {
          assert lines[i][k] == nodes[i].title[k - |digits| - 3];
        } else if k < |digits| + 7 + |nodes[i].title| {
        } else {
          assert lines[i][k] == nodes[i].description[k - |digits| - 7 - |nodes[i].title|];
        }
      }
      LeadingDigitsOf(digits, rest);
      DecimalRoundTrip(i);
    }
    SplitJoin(lines);
  }

  // ---------------------------------------------------------------------
  // generateRelationships
  // ---------------------------------------------------------------------

  /** The filter predicate: both indices parse, lie in range and differ. */
  predicate ValidCandidate(rel: JsValue, n: nat, parseInt: JsValue -> Option<int>)
  {
    var from := parseInt(OptGet(rel, "from"));
    var to := parseInt(OptGet(rel, "to"));
    from.Some? && to.Some? && 0 <= from.value < n && 0 <= to.value < n && from.value != to.value
  }

  function FilterValid(candidates: seq<JsValue>, n: nat, parseInt: JsValue -> Option<int>): (r: seq<JsValue>)
    ensures |r| <= |candidates|
    ensures forall k :: 0 <= k < |r| ==> ValidCandidate(r[k], n, parseInt)
  {
    if candidates == [] then []
    else
      var rest := FilterValid(candidates[1..], n, parseInt);
      if ValidCandidate(candidates[0], n, parseInt) then
        var r := [candidates[0]] + rest;
        assert forall k :: 1 <= k < |r| ==> r[k] == rest[k - 1];
        r
      else rest
  }

  /** The filter keeps exactly the valid candidates. */
  lemma {:induction false} FilterValidMembers(candidates: seq<JsValue>, n: nat, parseInt: JsValue -> Option<int>)
    ensures forall x :: x in FilterValid(candidates, n, parseInt) <==> x in candidates && ValidCandidate(x, n, parseInt)
  {
    if candidates != [] {
      FilterValidMembers(candidates[1..], n, parseInt);
      assert forall x :: x in candidates <==> x == candidates[0] || x in candidates[1..];
    }
  }

  lemma {:induction false} FilterValidAppend(a: seq<JsValue>, b: seq<JsValue>, n: nat, parseInt: JsValue -> Option<int>)
    ensures FilterValid(a + b, n, parseInt) == FilterValid(a, n, parseInt) + FilterValid(b, n, parseInt)
  {
    if a != [] {
      assert (a + b)[0] == a[0] && (a + b)[1..] == a[1..] + b;
      FilterValidAppend(a[1..], b, n, parseInt);
    } else {
      assert a + b == b;
    }
  }

  /** The edge a valid candidate maps to. */
  /** An edge between two different positions of the node list. */
  predicate EdgeBetweenNodes(nodes: seq<IdeaNode>, e: IdeaEdge)
  {
    exists i, j :: 0 <= i < |nodes| && 0 <= j < |nodes| && i != j && e.from == nodes[i].id && e.to == nodes[j].id
  }

  function CandidateEdge(nodes: seq<IdeaNode>, rel: JsValue, parseInt: JsValue -> Option<int>): (e: IdeaEdge)
    requires ValidCandidate(rel, |nodes|, parseInt)
    ensures e.from == nodes[parseInt(OptGet(rel, "from")).value].id
    ensures e.to == nodes[parseInt(OptGet(rel, "to")).value].id
    ensures EdgeBetweenNodes(nodes, e)
    ensures Truthy(OptGet(rel, "relation")) ==> e.relation == JsString(OptGet(rel, "relation"))
    ensures !Truthy(OptGet(rel, "relation")) ==> e.relation == DefaultRelation
  {
    var from := parseInt(OptGet(rel, "from")).value;
    var to := parseInt(OptGet(rel, "to")).value;
    var e := IdeaEdge(nodes[from].id, nodes[to].id, FieldOr(rel, "relation", DefaultRelation));
    assert e.from == nodes[from].id && e.to == nodes[to].id;
    e
  }

  /** `candidates.filter(valid).map(toEdge)` */
  function Relationships(nodes: seq<IdeaNode>, candidates: seq<JsValue>, parseInt: JsValue -> Option<int>): (edges: seq<IdeaEdge>)
    ensures |edges| == |FilterValid(candidates, |nodes|, parseInt)| <= |candidates|
    ensures forall k :: 0 <= k < |edges| ==> EdgeBetweenNodes(nodes, edges[k])
    ensures var valid := FilterValid(candidates, |nodes|, parseInt);
            forall k :: 0 <= k < |edges| ==>
              && edges[k].from == nodes[parseInt(OptGet(valid[k], "from")).value].id
              && edges[k].to == nodes[parseInt(OptGet(valid[k], "to")).value].id
              && edges[k].relation == FieldOr(valid[k], "relation", DefaultRelation)
  {
    var valid := FilterValid(candidates, |nodes|, parseInt);
    seq(|valid|, k requires 0 <= k < |valid| => CandidateEdge(nodes, valid[k], parseInt))
  }

  /** Output order is candidate order: the edges of a concatenation are the concatenated edges. */
  lemma RelationshipsAppend(nodes: seq<IdeaNode>, a: seq<JsValue>, b: seq<JsValue>, parseInt: JsValue -> Option<int>)
    ensures Relationships(nodes, a + b, parseInt) == Relationships(nodes, a, parseInt) + Relationships(nodes, b, parseInt)
  {
    FilterValidAppend(a, b, |nodes|, parseInt);
  }

  /** One candidate yields its edge when it is valid and nothing otherwise. */
  lemma RelationshipsSingle(nodes: seq<IdeaNode>, rel: JsValue, parseInt: JsValue -> Option<int>)
    ensures Relationships(nodes, [rel], parseInt) ==
            (if ValidCandidate(rel, |nodes|, parseInt) then [CandidateEdge(nodes, rel, parseInt)] else [])
  {
    assert [rel][1..] == [];
  }

  /** A missing or empty relation label becomes the default one. */
  lemma DefaultRelationLabel(nodes: seq<IdeaNode>, rel: JsValue, parseInt: JsValue -> Option<int>)
    requires ValidCandidate(rel, |nodes|, parseInt)
    requires !Truthy(OptGet(rel, "relation"))
    ensures CandidateEdge(nodes, rel, parseInt).relation == DefaultRelation
  {
  }

  /**
   * The candidate list of a relationship completion: none when it failed,
   * was empty, did not parse or hold an array, or held a null/undefined
   * element (reading its `from` throws inside the try block).
   */
  function RelationCandidates(response: LlmResponse, parse: string -> Option<JsValue>): (r: Option<seq<JsValue>>)
    ensures r.Some? ==> forall k :: 0 <= k < |r.value| ==> !Nullish(r.value[k])
    ensures (!response.Success? || !Truthy(response.data)) ==> r.None?
    ensures response.Success? && Truthy(response.data) ==>
              (r.Some? <==> ParsedList(response, parse, "relationships", "relations").Some?
                            && forall k :: 0 <= k < |ParsedList(response, parse, "relationships", "relations").value| ==>
                                 !Nullish(ParsedList(response, parse, "relationships", "relations").value[k]))
    ensures r.Some? ==> r == ParsedList(response, parse, "relationships", "relations")
  {
    if !response.Success? || !Truthy(response.data) then None
    else
      match ParsedList(response, parse, "relationships", "relations")
      case None => None
      case Some(candidates) =>
        if exists k :: 0 <= k < |candidates| && Nullish(candidates[k]) then None else Some(candidates)
  }

  /** The edges, and the concept list sent to the completion when one is requested. */
  datatype Generated = Generated(edges: seq<IdeaEdge>, prompt: Option<string>)

  /**
   * generateRelationships: never fails; with fewer than two nodes no
   * completion is requested; every edge joins two different positions.
   */
  function GenerateRelationships(nodes: seq<IdeaNode>, relationLlm: string -> LlmResponse,
                                 parse: string -> Option<JsValue>, parseInt: JsValue -> Option<int>): (g: Generated)
    ensures |nodes| < 2 <==> g.prompt.None?
    ensures |nodes| < 2 ==> g.edges == []
    ensures g.prompt.Some? ==> g.prompt.value == ConceptsList(nodes)
    ensures g.prompt.Some? && RelationCandidates(relationLlm(g.prompt.value), parse).None? ==> g.edges == []
    ensures g.prompt.Some? && RelationCandidates(relationLlm(g.prompt.value), parse).Some? ==>
              g.edges == Relationships(nodes, RelationCandidates(relationLlm(g.prompt.value), parse).value, parseInt)
    ensures forall k :: 0 <= k < |g.edges| ==> EdgeBetweenNodes(nodes, g.edges[k])
  {
    if |nodes| < 2 then Generated([], None)
    else
      var prompt := ConceptsList(nodes);
      match RelationCandidates(relationLlm(prompt), parse)
      case None => Generated([], Some(prompt))
      case Some(candidates) => Generated(Relationships(nodes, candidates, parseInt), Some(prompt))
  }

  /**
   * A completion whose JSON lists relationship candidates, none of them
   * null or undefined, yields exactly the edges of the valid candidates.
   */
  lemma RelationsFromCompletion(nodes: seq<IdeaNode>, relationLlm: string -> LlmResponse,
                                parse: string -> Option<JsValue>, parseInt: JsValue -> Option<int>,
                                parsed: JsValue, candidates: seq<JsValue>)
    requires |nodes| >= 2
    requires relationLlm(ConceptsList(nodes)).Success? && Truthy(relationLlm(ConceptsList(nodes)).data)
    requires ExtractJsonValue(relationLlm(ConceptsList(nodes)).data, parse) == Ok(parsed)
    requires ListField(parsed, "relationships", "relations") == Ok(candidates)
    requires forall k :: 0 <= k < |candidates| ==> !Nullish(candidates[k])
    ensures GenerateRelationships(nodes, relationLlm, parse, parseInt).edges == Relationships(nodes, candidates, parseInt)
  {
  }

  /** A failed completion, unparsable JSON or a list field that throws yields no edges. */
  lemma FailedRelationsGiveNoEdges(nodes: seq<IdeaNode>, relationLlm: string -> LlmResponse,
                                   parse: string -> Option<JsValue>, parseInt: JsValue -> Option<int>)
    requires var response := relationLlm(ConceptsList(nodes));
             || !response.Success?
             || ExtractJsonValue(response.data, parse).Err?
             || ListField(ExtractJsonValue(response.data, parse).value, "relationships", "relations").Err?
    ensures GenerateRelationships(nodes, relationLlm, parse, parseInt).edges == []
  {
  }

  // ---------------------------------------------------------------------
  // The store
  // ---------------------------------------------------------------------

  /** Every edge of an analysis joins ids of its own nodes. */
  predicate EdgesWithin(a: PaperAnalysis)
  {
    forall e :: e in a.edges ==> e.from in Ids(a.nodes) && e.to in Ids(a.nodes)
  }

  /** The generated edges join only ids of the analysed nodes. */
  lemma GeneratedEdgesWithin(uploadId: string, text: string, nodes: seq<IdeaNode>, relationLlm: string -> LlmResponse,
                             parse: string -> Option<JsValue>, parseInt: JsValue -> Option<int>)
    ensures EdgesWithin(PaperAnalysis(uploadId, nodes, GenerateRelationships(nodes, relationLlm, parse, parseInt).edges, Some(text)))
  {
    var edges := GenerateRelationships(nodes, relationLlm, parse, parseInt).edges;
    forall e | e in edges ensures e.from in Ids(nodes) && e.to in Ids(nodes) {
      var k :| 0 <= k < |edges| && edges[k] == e;
      assert EdgeBetweenNodes(nodes, edges[k]);
      var i, j :| 0 <= i < |nodes| && 0 <= j < |nodes| && i != j && e.from == nodes[i].id && e.to == nodes[j].id;
      assert Ids(nodes)[i] == e.from && Ids(nodes)[j] == e.to;
    }
  }

  class Analyses {
    /** `analyses`: upload id to analysis. */
    var analyses: map<string, PaperAnalysis>

    /** Each entry is keyed by its own upload id, keeps its text and joins only its own nodes. */
    predicate Valid()
      reads this
    {
      forall id :: id in analyses ==>
        analyses[id].uploadId == id && analyses[id].rawText.Some? && EdgesWithin(analyses[id])
    }

    constructor()
      ensures Valid() && analyses == map[]
    {
      analyses := map[];
    }

    /** `getAnalysis`: the stored analysis, or none. */
    function GetAnalysis(uploadId: string): (r: Option<PaperAnalysis>)
      reads this
      ensures r.Some? <==> uploadId in analyses
      ensures r.Some? ==> r.value == analyses[uploadId]
      ensures Valid() && r.Some? ==> r.value.uploadId == uploadId
    {
      if uploadId in analyses then Some(analyses[uploadId]) else None
    }

    /**
     * `analyzePaper`: a failed concept extraction propagates and leaves the
     * store as it was; otherwise the analysis is stored under `uploadId`,
     * replacing any earlier one.
     */
    method AnalyzePaper(uploadId: string, text: string,
                        conceptLlm: string -> LlmResponse, relationLlm: string -> LlmResponse,
                        parse: string -> Option<JsValue>, parseInt: JsValue -> Option<int>, uuid: nat -> string)
      returns (r: Result<PaperAnalysis>)
      requires Valid()
      modifies this
      ensures Valid()
      ensures r.Err? <==> ExtractConcepts(text, conceptLlm, parse, uuid).Err?
      ensures r.Err? ==> r.error == ExtractConcepts(text, conceptLlm, parse, uuid).error && analyses == old(analyses)
      ensures r.Ok? ==>
                var nodes := ExtractConcepts(text, conceptLlm, parse, uuid).value;
                r.value == PaperAnalysis(uploadId, nodes, GenerateRelationships(nodes, relationLlm, parse, parseInt).edges, Some(text))
                && analyses == old(analyses)[uploadId := r.value]
      ensures r.Ok? ==> GetAnalysis(uploadId) == Some(r.value)
      ensures forall id :: id != uploadId ==> GetAnalysis(id) == old(GetAnalysis(id))
    {
      var concepts := ExtractConcepts(text, conceptLlm, parse, uuid);
      if concepts.Err? {
        return Err(concepts.error);
      }
      var nodes := concepts.value;
      var edges := GenerateRelationships(nodes, relationLlm, parse, parseInt).edges;
      var analysis := PaperAnalysis(uploadId, nodes, edges, Some(text));
      GeneratedEdgesWithin(uploadId, text, nodes, relationLlm, parse, parseInt);
      analyses := analyses[uploadId := analysis];
      r := Ok(analysis);
    }
  }
}
