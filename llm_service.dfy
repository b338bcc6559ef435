/**
 * The completion client and the JSON extraction of the LLM service
 * (server/src/services/llm.service.ts).  The HTTP POST of every attempt is
 * an input (its outcome), JSON.parse is a function parameter, and sleeping
 * between attempts is reported as the list of waits.
 */
module LlmService {
  import opened Wrappers
  import opened JsValues

  const MaxRetries: nat := 3
  const TimeoutMs: nat := 60000
  const Temperature: real := 0.3
  const MaxTokens: nat := 4000
  const OpenRouterUrl: string := "https://openrouter.ai/api/v1/chat/completions"
  /** The model the OpenRouter request names, whatever the configuration says. */
  const OpenRouterModel: string := "google/gemini-2.5-flash-lite"
  const DefaultModel: string := "google/gemini-2.0-flash-exp:free"
  const DefaultGeminiModel: string := "gemini"

  const OpenRouterNotConfigured: string := "API key not configured"
  const GeminiNotConfigured: string := "Gemini API not configured (GEMINI_API_KEY/GEMINI_API_URL)"
  const MaxRetriesExceeded: string := "Max retries exceeded"

  // ---------------------------------------------------------------------
  // Configuration, messages, requests
  // ---------------------------------------------------------------------

  /** The settings the constructor reads from the environment. */
  datatype Config = Config(
    apiKey: string,
    geminiKey: string,
    geminiUrl: string,
    model: string,
    geminiModel: string)

  /** `process.env[name] || fallback` */
  function EnvOr(env: map<string, string>, name: string, fallback: string): (v: string)
    ensures name in env && env[name] != "" ==> v == env[name]
    ensures !(name in env && env[name] != "") ==> v == fallback
  {
    if name in env && env[name] != "" then env[name] else fallback
  }

  /** The constructor: each setting from its variable, with the defaults of llm.service.ts. */
  function LoadConfig(env: map<string, string>): (c: Config)
    ensures !Configured(c, false) <==> !("OPENROUTER_API_KEY" in env && env["OPENROUTER_API_KEY"] != "")
    ensures Configured(c, true) <==>
              "GEMINI_API_KEY" in env && env["GEMINI_API_KEY"] != "" && "GEMINI_API_URL" in env && env["GEMINI_API_URL"] != ""
    ensures c.model != "" && c.geminiModel != ""
  {
    Config(
      EnvOr(env, "OPENROUTER_API_KEY", ""),
      EnvOr(env, "GEMINI_API_KEY", ""),
      EnvOr(env, "GEMINI_API_URL", ""),
      EnvOr(env, "OPENROUTER_MODEL", DefaultModel),
      EnvOr(env, "GEMINI_MODEL", DefaultGeminiModel))
  }

  /** The pre-flight check of the chosen endpoint. */
  predicate Configured(config: Config, useGemini: bool)
  {
    if useGemini then config.geminiKey != "" && config.geminiUrl != "" else config.apiKey != ""
  }

  datatype Message = Message(role: string, content: string)

  /** The chat messages: a system entry only for a non-empty system prompt, then the user entry. */
  function Messages(prompt: string, systemPrompt: Option<string>): (ms: seq<Message>)
    ensures 1 <= |ms| <= 2 && ms[|ms| - 1] == Message("user", prompt)
    ensures |ms| == 2 <==> (systemPrompt.Some? && systemPrompt.value != "")
    ensures |ms| == 2 ==> ms[0] == Message("system", systemPrompt.value)
  {
    var system := if systemPrompt.Some? && systemPrompt.value != "" then [Message("system", systemPrompt.value)] else [];
    system + [Message("user", prompt)]
  }

  datatype Request = Request(
    url: string,
    headers: seq<(string, string)>,
    model: string,
    messages: seq<Message>,
    temperature: real,
    maxTokens: nat,
    timeoutMs: nat)

  /** The POST one attempt sends: OpenRouter by default, the Gemini endpoint on request. */
  function RequestFor(config: Config, prompt: string, systemPrompt: Option<string>, useGemini: bool): (r: Request)
    ensures !useGemini ==> r.url == OpenRouterUrl && r.model == OpenRouterModel
    ensures useGemini ==> r.url == config.geminiUrl && r.model == config.geminiModel
    ensures r.messages == Messages(prompt, systemPrompt)
    ensures r.temperature == Temperature && r.maxTokens == MaxTokens && r.timeoutMs == TimeoutMs
  {
    var messages := Messages(prompt, systemPrompt);
    if useGemini then
      Request(config.geminiUrl,
              [("Authorization", "Bearer " + config.geminiKey), ("Content-Type", "application/json")],
              config.geminiModel, messages, Temperature, MaxTokens, TimeoutMs)
    else
      Request(OpenRouterUrl,
              [("Authorization", "Bearer " + config.apiKey), ("Content-Type", "application/json"),
               ("HTTP-Referer", "http://localhost:3000"), ("X-Title", "Active Reading App")],
              OpenRouterModel, messages, Temperature, MaxTokens, TimeoutMs)
  }

  // ---------------------------------------------------------------------
  // One attempt
  // ---------------------------------------------------------------------

  /** How the POST of one attempt settled: rejected with a message, or a response body. */
  datatype HttpOutcome = NetworkError(message: string) | Response(data: JsValue)

  /** What the try block of one attempt ends with: content to return, or a thrown message. */
  datatype AttemptResult = Content(value: JsValue) | Thrown(message: string)

  /**
   * An OpenRouter attempt: `response.data.choices[0]` is read (and throws on
   * a body without choices), then `choices[0]?.message?.content` must be
   * truthy.
   */
  function OpenRouterAttempt(outcome: HttpOutcome): (r: AttemptResult)
    ensures r.Content? ==> Truthy(r.value)
    ensures outcome.NetworkError? ==> r == Thrown(outcome.message)
  {
    match outcome
    case NetworkError(message) => Thrown(message)
    case Response(data) =>
      match Get(data, "choices")
      case Err(message) => Thrown(message)
      case Ok(choices) =>
        match First(choices)
        case Err(message) => Thrown(message)
        case Ok(first) =>
          var content := OptGet(OptGet(first, "message"), "content");
          if Truthy(content) then Content(content) else Thrown("No content in response")
  }

  /** `part?.text || ''`, as Array.join then writes it. */
  function PartText(part: JsValue): string
  {
    var text := OptGet(part, "text");
    if Truthy(text) then JsString(text) else ""
  }

  /** `parts.map(part => part?.text || '').join('')` */
  function JoinParts(parts: seq<JsValue>): (r: string)
    ensures (forall i :: 0 <= i < |parts| ==> PartText(parts[i]) == "") ==> r == ""
  {
    if parts == [] then "" else PartText(parts[0]) + JoinParts(parts[1..])
  }

  /** `data.choices[0]?.message?.content`, once `data.choices` is known to be truthy. */
  function ChoicesContent(data: JsValue): (c: JsValue)
    ensures !Truthy(OptGet(data, "choices")) ==> c == Undefined
    ensures OptGet(data, "choices").Arr? && |OptGet(data, "choices").items| > 0 ==>
              c == OptGet(OptGet(OptGet(data, "choices").items[0], "message"), "content")
  {
    var choices := OptGet(data, "choices");
    if Truthy(choices) then OptGet(OptGet(First(choices).value, "message"), "content") else Undefined
  }

  /** `data.output[0]?.content`, once `data.output` is known to be an array. */
  function OutputContent(data: JsValue): (c: JsValue)
    ensures !OptGet(data, "output").Arr? ==> c == Undefined
    ensures OptGet(data, "output").Arr? && |OptGet(data, "output").items| > 0 ==>
              c == OptGet(OptGet(data, "output").items[0], "content")
    ensures OptGet(data, "output") == Arr([]) ==> c == Undefined
  {
    var output := OptGet(data, "output");
    if output.Arr? then OptGet(First(output).value, "content") else Undefined
  }

  /**
   * The content the Gemini branch picks from a response body, in priority
   * order: the OpenAI-like choices, then `output[0].content` (an array of
   * parts, a string, or an object with `text`), then a string body.  Null
   * when none applies.
   */
  function GeminiContent(data: JsValue): (content: JsValue)
    ensures Truthy(ChoicesContent(data)) ==> content == ChoicesContent(data)
    ensures !Truthy(ChoicesContent(data)) && OutputContent(data).Arr? ==>
              content == Str(JoinParts(OutputContent(data).items))
    ensures !Truthy(ChoicesContent(data)) && OutputContent(data).Str? && OutputContent(data).s != "" ==>
              content == OutputContent(data)
    ensures !Truthy(ChoicesContent(data)) && Truthy(OutputContent(data))
            && !OutputContent(data).Arr? && !OutputContent(data).Str? ==>
              content == (if Truthy(OptGet(OutputContent(data), "text")) then OptGet(OutputContent(data), "text") else Null)
    ensures !Truthy(ChoicesContent(data)) && !Truthy(OutputContent(data)) ==>
              content == (if data.Str? then data else Null)
  {
    var fromChoices := ChoicesContent(data);
    if Truthy(OptGet(data, "choices")) && Truthy(fromChoices) then fromChoices
    else
      var output := OptGet(data, "output");
      var c := OutputContent(data);
      if Truthy(output) && output.Arr? && Truthy(c) then
        match c
        case Arr(parts) => Str(JoinParts(parts))
        case Str(_) => c
        case _ => var text := OptGet(c, "text"); if Truthy(text) then text else Null
      else if data.Str? then data
      else Null
  }

  function GeminiAttempt(outcome: HttpOutcome): (r: AttemptResult)
    ensures r.Content? ==> Truthy(r.value)
    ensures outcome.NetworkError? ==> r == Thrown(outcome.message)
  {
    match outcome
    case NetworkError(message) => Thrown(message)
    case Response(data) =>
      var content := GeminiContent(data);
      if Truthy(content) then Content(content) else Thrown("No content in Gemini response")
  }

  /** One attempt against the chosen endpoint. */
  function Attempt(useGemini: bool, outcome: HttpOutcome): (r: AttemptResult)
    ensures r.Content? ==> Truthy(r.value)
    ensures outcome.NetworkError? ==> r == Thrown(outcome.message)
  {
    if useGemini then GeminiAttempt(outcome) else OpenRouterAttempt(outcome)
  }

  /** A choices-shaped body wins over any output field. */
  lemma ChoicesTakePriority(content: string, rest: map<string, JsValue>)
    requires content != ""
    ensures GeminiContent(Obj(rest["choices" := Arr([Obj(map["message" := Obj(map["content" := Str(content)])])])]))
            == Str(content)
  {
  }

  /** Without choices, an array of parts is concatenated by `text`. */
  lemma OutputPartsJoined(parts: seq<JsValue>, rest: map<string, JsValue>)
    requires "choices" !in rest && JoinParts(parts) != ""
    ensures GeminiContent(Obj(rest["output" := Arr([Obj(map["content" := Arr(parts)])])]))
            == Str(JoinParts(parts))
  {
  }

  // ---------------------------------------------------------------------
  // runPrompt
  // ---------------------------------------------------------------------

  /** The LLMResponse of runPrompt: `{success: true, data}` or `{success: false, error}`. */
  datatype LlmResponse = Success(data: JsValue) | Failure(error: string)

  function NotConfiguredMessage(useGemini: bool): string
  {
    if useGemini then GeminiNotConfigured else OpenRouterNotConfigured
  }

  /** `error.message || default` for the failure after the last attempt. */
  function FinalError(useGemini: bool, message: string): (e: string)
    ensures e != ""
  {
    if message != "" then message
    else if useGemini then "Gemini request failed" else "LLM request failed"
  }

  /**
   * runPrompt: after the pre-flight check, up to MaxRetries attempts; the
   * first attempt with content is the answer; between failed attempts the
   * client waits 1000 * attempt ms; the last failure's message is reported.
   * `outcomes[k]` is how the POST of attempt k + 1 would settle.
   */
  method RunPrompt(config: Config, prompt: string, systemPrompt: Option<string>, useGemini: bool,
                   outcomes: seq<HttpOutcome>)
    returns (response: LlmResponse, requests: seq<Request>, waits: seq<nat>)
    requires |outcomes| == MaxRetries
    ensures !Configured(config, useGemini) ==>
              response == Failure(NotConfiguredMessage(useGemini)) && requests == [] && waits == []
    ensures Configured(config, useGemini) ==> 1 <= |requests| <= MaxRetries && |waits| == |requests| - 1
    ensures forall k :: 0 <= k < |requests| ==> requests[k] == RequestFor(config, prompt, systemPrompt, useGemini)
    ensures forall k :: 0 <= k < |waits| ==> waits[k] == 1000 * (k + 1)
    ensures forall k :: 0 <= k < |requests| - 1 ==> Attempt(useGemini, outcomes[k]).Thrown?
    ensures response.Success? ==>
              |requests| >= 1 && Attempt(useGemini, outcomes[|requests| - 1]) == Content(response.data)
              && Truthy(response.data)
    ensures Configured(config, useGemini) && response.Failure? ==>
              |requests| == MaxRetries
              && Attempt(useGemini, outcomes[MaxRetries - 1]).Thrown?
              && response.error == FinalError(useGemini, Attempt(useGemini, outcomes[MaxRetries - 1]).message)
    ensures Configured(config, useGemini) ==>
              (response.Success? <==> exists k :: 0 <= k < MaxRetries && Attempt(useGemini, outcomes[k]).Content?)
  {
    requests, waits := [], [];
    if !Configured(config, useGemini) {
      response := Failure(NotConfiguredMessage(useGemini));
      return;
    }
    var attempt := 1;
    while attempt <= MaxRetries
      invariant 1 <= attempt <= MaxRetries
      invariant |requests| == attempt - 1 && |waits| == attempt - 1
      invariant forall k :: 0 <= k < |requests| ==> requests[k] == RequestFor(config, prompt, systemPrompt, useGemini)
      invariant forall k :: 0 <= k < |waits| ==> waits[k] == 1000 * (k + 1)
      invariant forall k :: 0 <= k < attempt - 1 ==> Attempt(useGemini, outcomes[k]).Thrown?
    {
      var request := RequestFor(config, prompt, systemPrompt, useGemini);
      requests := requests + [request];
      var result := Attempt(useGemini, outcomes[attempt - 1]);
      if result.Content? {
        response := Success(result.value);
        return;
      }
      if attempt == MaxRetries {
        response := Failure(FinalError(useGemini, result.message));
        return;
      }
      waits := waits + [1000 * attempt];
      attempt := attempt + 1;
    }
    response := Failure(MaxRetriesExceeded);
  }

  // ---------------------------------------------------------------------
  // extractJSON
  // ---------------------------------------------------------------------

  /** `pat` occurs in `s` at index `i`. */
  predicate At(s: string, pat: string, i: nat)
  {
    i + |pat| <= |s| && s[i..i + |pat|] == pat
  }

  /** The first index at or after `from` where `pat` occurs. */
  function Find(s: string, pat: string, from: nat): (r: Option<nat>)
    ensures r.Some? ==> (from <= r.value && At(s, pat, r.value)
                         && forall j :: from <= j < r.value ==> !At(s, pat, j))
    ensures r.None? ==> forall j :: from <= j ==> !At(s, pat, j)
    decreases |s| + 1 - from
  {
    if from + |pat| > |s| then None
    else if At(s, pat, from) then Some(from)
    else Find(s, pat, from + 1)
  }

  /** The last index of `c` in `s`. */
  function LastIndexOf(s: string, c: char): (r: Option<nat>)
    ensures r.Some? ==> (r.value < |s| && s[r.value] == c
                         && forall k :: r.value < k < |s| ==> s[k] != c)
    ensures r.None? ==> forall k :: 0 <= k < |s| ==> s[k] != c
  {
    if s == [] then None
    else if s[|s| - 1] == c then Some(|s| - 1)
    else LastIndexOf(s[..|s| - 1], c)
  }

  /** A match of /```json\n?([\s\S]*?)\n?```/: the captured body and the whole match. */
  datatype FenceHit = FenceHit(body: string, whole: string)

  /**
   * The leftmost match of the fence pattern.  It starts at the first
   * "```json"; an immediately following newline is skipped; the lazy body
   * stops at the first "```" after it, without a newline just before it.
   */
  function FenceMatch(s: string): (r: Option<FenceHit>)
  {
    match Find(s, "```json", 0)
    case None => None
    case Some(p) =>
      var q := p + 7;
      var bodyStart := if q < |s| && s[q] == '\n' then q + 1 else q;
      match Find(s, "```", bodyStart)
      case None => None
      case Some(t) =>
        var bodyEnd := if t > bodyStart && s[t - 1] == '\n' then t - 1 else t;
        Some(FenceHit(s[bodyStart..bodyEnd], s[p..t + 3]))
  }

  /** The match of /\{[\s\S]*\}/: from the first '{' to the last '}' after it. */
  function BraceMatch(s: string): (r: Option<string>)
    ensures r.Some? ==> 2 <= |r.value| && r.value[0] == '{' && r.value[|r.value| - 1] == '}'
  {
    match Find(s, "{", 0)
    case None => None
    case Some(i) =>
      match LastIndexOf(s, '}')
      case None => None
      case Some(j) => if j > i then Some(s[i..j + 1]) else None
  }

  /** `jsonMatch[1] || jsonMatch[0]`: an empty fence body selects the whole fenced match. */
  function FenceSelection(hit: FenceHit): (text: string)
    ensures hit.body != "" ==> text == hit.body
    ensures hit.body == "" ==> text == hit.whole
  {
    if hit.body != "" then hit.body else hit.whole
  }

  /**
   * The fence match starts at the first "```json" and ends at the first
   * "```" after it (the lazy body), and is the opener, an optional newline,
   * the body, an optional newline and the closer.
   */
  lemma FenceMatchShape(s: string)
    requires FenceMatch(s).Some?
    ensures Find(s, "```json", 0).Some?
    ensures var p := Find(s, "```json", 0).value;
            var w := FenceMatch(s).value.whole;
            10 <= |w| && p + |w| <= |s| && s[p..p + |w|] == w
            && w[..7] == "```json" && w[|w| - 3..] == "```"
            && forall j :: 7 <= j < |w| - 3 ==> !At(w, "```", j)
    ensures var h := FenceMatch(s).value;
            exists a, b :: (a == "" || a == "\n") && (b == "" || b == "\n")
                           && h.whole == "```json" + a + h.body + b + "```"
  {
    var p, bodyStart, bodyEnd, t := FenceParts(s);
    FenceShapeAt(s, p, bodyStart, bodyEnd, t);
  }

  /** The shape of the text between an opener at `p` and the first closer `t` after the body's start. */
  lemma FenceShapeAt(s: string, p: nat, bodyStart: nat, bodyEnd: nat, t: nat)
    requires At(s, "```json", p) && At(s, "```", t)
    requires p + 7 <= bodyStart <= p + 8 && bodyStart <= bodyEnd <= t <= bodyEnd + 1
    requires bodyStart == p + 8 ==> s[p + 7] == '\n'
    requires bodyEnd < t ==> s[t - 1] == '\n'
    requires forall j :: bodyStart <= j < t ==> !At(s, "```", j)
    ensures var w := s[p..t + 3];
            10 <= |w| && p + |w| <= |s| && s[p..p + |w|] == w
            && w[..7] == "```json" && w[|w| - 3..] == "```"
            && forall j :: 7 <= j < |w| - 3 ==> !At(w, "```", j)
    ensures exists a, b :: (a == "" || a == "\n") && (b == "" || b == "\n")
                           && s[p..t + 3] == "```json" + a + s[bodyStart..bodyEnd] + b + "```"
  {
    FenceLazy(s, p, bodyStart, t);
    FenceSplit(s, p, bodyStart, bodyEnd, t);
    var a := if bodyStart == p + 8 then "\n" else "";
    var b := if bodyEnd < t then "\n" else "";
    if bodyStart == p + 8 {
      OneCharSlice(s, p + 7);
    }
    if bodyEnd < t {
      OneCharSlice(s, t - 1);
    }
    assert s[p + 7..bodyStart] == a && s[bodyEnd..t] == b;
  }

  lemma OneCharSlice(s: string, i: nat)
    requires i < |s|
    ensures s[i..i + 1] == [s[i]]
  {
  }

  /** The positions FenceMatch finds: the opener, the body's bounds and the closer. */
  lemma FenceParts(s: string) returns (p: nat, bodyStart: nat, bodyEnd: nat, t: nat)
    requires FenceMatch(s).Some?
    ensures Find(s, "```json", 0) == Some(p) && At(s, "```json", p)
    ensures p + 7 <= bodyStart <= p + 8 && bodyStart <= bodyEnd <= t <= bodyEnd + 1 && t + 3 <= |s|
    ensures bodyStart == p + 8 ==> s[p + 7] == '\n'
    ensures bodyEnd < t ==> s[t - 1] == '\n'
    ensures At(s, "```", t) && forall j :: bodyStart <= j < t ==> !At(s, "```", j)
    ensures FenceMatch(s).value == FenceHit(s[bodyStart..bodyEnd], s[p..t + 3])
  {
    p := Find(s, "```json", 0).value;
    var q := p + 7;
    bodyStart := if q < |s| && s[q] == '\n' then q + 1 else q;
    t := Find(s, "```", bodyStart).value;
    bodyEnd := if t > bodyStart && s[t - 1] == '\n' then t - 1 else t;
  }

  /** Between the opener and the closer of the match there is no other "```". */
  lemma FenceLazy(s: string, p: nat, bodyStart: nat, t: nat)
    requires At(s, "```json", p) && At(s, "```", t) && p + 7 <= bodyStart <= p + 8 && bodyStart <= t
    requires bodyStart == p + 8 ==> s[p + 7] == '\n'
    requires forall j :: bodyStart <= j < t ==> !At(s, "```", j)
    ensures var w := s[p..t + 3];
            10 <= |w| && w[..7] == "```json" && w[|w| - 3..] == "```"
            && forall j :: 7 <= j < |w| - 3 ==> !At(w, "```", j)
  {
    var w := s[p..t + 3];
    assert w[..7] == s[p..p + 7];
    assert w[|w| - 3..] == s[t..t + 3];
    forall j | 7 <= j < |w| - 3 ensures !At(w, "```", j) {
      assert w[j..j + 3] == s[p + j..p + j + 3];
      if p + j < bodyStart {
        assert w[j..j + 3][0] == s[p + 7];
      } else {
        assert !At(s, "```", p + j);
      }
    }
  }

  /** The match is the opener, what lies before the body, the body, what lies after it, and the closer. */
  lemma FenceSplit(s: string, p: nat, bodyStart: nat, bodyEnd: nat, t: nat)
    requires At(s, "```json", p) && At(s, "```", t) && p + 7 <= bodyStart <= bodyEnd <= t
    ensures s[p..t + 3] == "```json" + s[p + 7..bodyStart] + s[bodyStart..bodyEnd] + s[bodyEnd..t] + "```"
  {
    assert s[p..t + 3] == s[p..p + 7] + s[p + 7..bodyStart] + s[bodyStart..bodyEnd] + s[bodyEnd..t] + s[t..t + 3];
  }

  /** A brace span is found exactly when some '{' comes before some '}'; it runs from the first '{' to the last '}'. */
  lemma BraceMatchSpan(s: string)
    ensures BraceMatch(s).Some? <==> exists i, j :: 0 <= i < j < |s| && s[i] == '{' && s[j] == '}'
    ensures BraceMatch(s).Some? ==>
              exists i, j :: 0 <= i < j < |s| && s[i] == '{' && s[j] == '}' && BraceMatch(s).value == s[i..j + 1]
                             && (forall k :: 0 <= k < i ==> s[k] != '{')
                             && (forall k :: j < k < |s| ==> s[k] != '}')
  {
    if exists i, j :: 0 <= i < j < |s| && s[i] == '{' && s[j] == '}' {
      var i, j :| 0 <= i < j < |s| && s[i] == '{' && s[j] == '}';
      BraceFound(s, i, j);
    }
    if BraceMatch(s).Some? {
      var i := Find(s, "{", 0).value;
      var j := LastIndexOf(s, '}').value;
      FirstOpenBrace(s, i);
      BraceSpanEnds(s, i, j);
    }
  }

  /** A one-character pattern occurs at `k` exactly when `s[k]` is that character. */
  lemma AtChar(s: string, c: char, k: nat)
    ensures At(s, [c], k) <==> k < |s| && s[k] == c
  {
    if k < |s| {
      assert s[k..k + 1][0] == s[k];
    }
  }

  /** Some '{' before some '}' is enough for a brace span. */
  lemma BraceFound(s: string, i: nat, j: nat)
    requires i < j < |s| && s[i] == '{' && s[j] == '}'
    ensures BraceMatch(s).Some?
  {
    AtChar(s, '{', i);
    var first := Find(s, "{", 0).value;
    var last := LastIndexOf(s, '}').value;
    assert first <= i < j <= last;
  }

  /** The first '{' has no '{' before it. */
  lemma FirstOpenBrace(s: string, i: nat)
    requires Find(s, "{", 0) == Some(i)
    ensures i < |s| && s[i] == '{'
    ensures forall k :: 0 <= k < i ==> s[k] != '{'
  {
    AtChar(s, '{', i);
    forall k | 0 <= k < i ensures s[k] != '{' {
      assert !At(s, "{", k);
      AtChar(s, '{', k);
    }
  }

  /** With the first '{' before the last '}', the span found runs from one to the other. */
  lemma BraceSpanEnds(s: string, i: nat, j: nat)
    requires Find(s, "{", 0) == Some(i) && LastIndexOf(s, '}') == Some(j) && i < j
    ensures BraceMatch(s) == Some(s[i..j + 1])
  {
  }

  const InvalidJson: string := "Invalid JSON in LLM response"
  const NoJson: string := "No valid JSON found in response"

  /**
   * extractJSON: a fenced json block if there is one, else the outermost
   * brace span, else the whole text.  A found block or span that does not
   * parse is an error; only when nothing was found is the whole text tried.
   */
  function ExtractJson(response: string, parse: string -> Option<JsValue>): (r: Result<JsValue>)
    ensures FenceMatch(response).Some? ==>
              r == (match parse(FenceSelection(FenceMatch(response).value))
                    case Some(v) => Ok(v) case None => Err(InvalidJson))
    ensures FenceMatch(response).None? && BraceMatch(response).Some? ==>
              r == (match parse(BraceMatch(response).value) case Some(v) => Ok(v) case None => Err(InvalidJson))
    ensures FenceMatch(response).None? && BraceMatch(response).None? ==>
              r == (match parse(response) case Some(v) => Ok(v) case None => Err(NoJson))
  {
    var selection :=
      match FenceMatch(response)
      case Some(hit) => Some(FenceSelection(hit))
      case None => BraceMatch(response);
    match selection
    case Some(text) => (match parse(text) case Some(v) => Ok(v) case None => Err(InvalidJson))
    case None => (match parse(response) case Some(v) => Ok(v) case None => Err(NoJson))
  }

  /**
   * extractJSON applied to the `data` of a successful completion: only a
   * string has the `match` method, anything else raises a TypeError.
   */
  function ExtractJsonValue(data: JsValue, parse: string -> Option<JsValue>): (r: Result<JsValue>)
    ensures data.Str? ==> r == ExtractJson(data.s, parse)
    ensures !data.Str? ==> r.Err?
  {
    if data.Str? then ExtractJson(data.s, parse) else Err("response.match is not a function")
  }

  /** If `pat` first occurs at `t` from `from` on, Find returns `t`. */
  lemma {:induction false} FindIs(s: string, pat: string, from: nat, t: nat)
    requires from <= t && At(s, pat, t)
    requires forall j :: from <= j < t ==> !At(s, pat, j)
    ensures Find(s, pat, from) == Some(t)
    decreases t - from
  {
    if from < t {
      FindIs(s, pat, from + 1, t);
    }
  }

  predicate NoBacktick(s: string)
  {
    forall i :: 0 <= i < |s| ==> s[i] != '`'
  }

  lemma OpenerAt(s: string, p: nat)
    requires p + 8 <= |s| && s[p..p + 8] == "```json\n"
    requires forall j :: 0 <= j < p ==> s[j] != '`'
    ensures Find(s, "```json", 0) == Some(p) && s[p + 7] == '\n'
  {
    assert s[p..p + 7] == s[p..p + 8][..7];
    assert s[p + 7] == s[p..p + 8][7];
    forall j | 0 <= j < p ensures !At(s, "```json", j) {
      assert j + 7 <= |s| ==> s[j..j + 7][0] == s[j];
    }
    FindIs(s, "```json", 0, p);
  }

  lemma CloserAt(s: string, from: nat, t: nat)
    requires from <= t && t + 3 <= |s| && s[t..t + 3] == "```"
    requires forall j :: from <= j < t ==> s[j] != '`'
    ensures Find(s, "```", from) == Some(t)
  {
    forall j | from <= j < t ensures !At(s, "```", j) {
      assert j + 3 <= |s| ==> s[j..j + 3][0] == s[j];
    }
    FindIs(s, "```", from, t);
  }

  /** Past the opener, the first "```" is the one closing "\n```" after a backtick-free body. */
  lemma CloserAfterBody(s: string, p: nat, body: string)
    requires p + 12 + |body| <= |s|
    requires s[p + 8..p + 8 + |body|] == body && s[p + 8 + |body|..p + 12 + |body|] == "\n```"
    requires forall j :: 0 <= j < |body| ==> body[j] != '`'
    ensures Find(s, "```", p + 8) == Some(p + 9 + |body|)
    ensures s[p + 8 + |body|] == '\n'
  {
    var t := p + 9 + |body|;
    var closer := s[p + 8 + |body|..p + 12 + |body|];
    assert s[t..t + 3] == closer[1..];
    forall j | p + 8 <= j < t ensures s[j] != '`' {
      if j < p + 8 + |body| {
        assert s[j] == s[p + 8..p + 8 + |body|][j - p - 8];
      } else {
        assert s[j] == closer[0];
      }
    }
    CloserAt(s, p + 8, t);
    assert s[t - 1] == closer[0];
  }

  /** With the opener at `p` followed by a newline, and the closer at `t` after a newline, the match is fixed. */
  lemma FenceMatchAt(s: string, p: nat, t: nat)
    requires p + 9 <= t && t + 3 <= |s|
    requires Find(s, "```json", 0) == Some(p) && s[p + 7] == '\n'
    requires Find(s, "```", p + 8) == Some(t) && s[t - 1] == '\n'
    ensures FenceMatch(s) == Some(FenceHit(s[p + 8..t - 1], s[p..t + 3]))
  {
  }

  /** The fence positions in a text laid out as prose, "```json\n", body, "\n```". */
  lemma FenceAt(s: string, p: nat, body: string)
    requires p + 12 + |body| <= |s| && body != ""
    requires forall j :: 0 <= j < p ==> s[j] != '`'
    requires s[p..p + 8] == "```json\n" && s[p + 8..p + 8 + |body|] == body
    requires s[p + 8 + |body|..p + 12 + |body|] == "\n```"
    requires forall j :: 0 <= j < |body| ==> body[j] != '`'
    ensures FenceMatch(s) == Some(FenceHit(body, s[p..p + 12 + |body|]))
  {
    OpenerAt(s, p);
    CloserAfterBody(s, p, body);
    FenceMatchAt(s, p, p + 9 + |body|);
  }

  /** A fenced block after backtick-free prose yields its body. */
  lemma FencedBodyExtracted(pre: string, body: string, post: string, parse: string -> Option<JsValue>)
    requires NoBacktick(pre) && NoBacktick(body) && body != ""
    ensures ExtractJson(pre + "```json\n" + body + "\n```" + post, parse) ==
            (match parse(body) case Some(v) => Ok(v) case None => Err(InvalidJson))
  {
    var s := pre + "```json\n" + body + "\n```" + post;
    var p := |pre|;
    assert s[..p] == pre;
    assert s[p..p + 8] == "```json\n";
    assert s[p + 8..p + 8 + |body|] == body;
    assert s[p + 8 + |body|..p + 12 + |body|] == "\n```";
    forall j | 0 <= j < p ensures s[j] != '`' {
      assert s[j] == s[..p][j];
    }
    FenceAt(s, p, body);
  }

  /** An opener followed at once by the closer matches with an empty body. */
  lemma EmptyFenceMatchAt(s: string, p: nat)
    requires p + 11 <= |s|
    requires Find(s, "```json", 0) == Some(p) && s[p + 7] == '\n'
    requires Find(s, "```", p + 8) == Some(p + 8)
    ensures FenceMatch(s) == Some(FenceHit("", s[p..p + 11]))
  {
    assert s[p + 8..p + 8] == "";
  }

  /** The quirk of `jsonMatch[1] || jsonMatch[0]`: an empty fence makes the whole match go to the parser. */
  lemma EmptyFenceParsesWholeMatch(pre: string, post: string, parse: string -> Option<JsValue>)
    requires NoBacktick(pre)
    ensures ExtractJson(pre + "```json\n```" + post, parse) ==
            (match parse("```json\n```") case Some(v) => Ok(v) case None => Err(InvalidJson))
  {
    var s := pre + "```json\n```" + post;
    var p := |pre|;
    assert s[p..p + 8] == "```json\n";
    forall j | 0 <= j < p ensures s[j] != '`' {
      assert s[j] == pre[j];
    }
    OpenerAt(s, p);
    assert s[p + 8..p + 11] == "```";
    FindIs(s, "```", p + 8, p + 8);
    EmptyFenceMatchAt(s, p);
    assert s[p..p + 11] == "```json\n```";
  }

  /** Without a backtick there is no "```json" opener. */
  lemma NoOpener(s: string)
    requires NoBacktick(s)
    ensures Find(s, "```json", 0).None?
  {
    forall k | 0 <= k ensures !At(s, "```json", k) {
      if k + 7 <= |s| { assert s[k..k + 7][0] == s[k]; }
    }
  }

  /** The first '{' of the laid-out text closes `pre` and its last '}' opens `post`. */
  lemma BraceEnds(pre: string, mid: string, post: string)
    requires forall i :: 0 <= i < |pre| ==> pre[i] != '{'
    requires forall i :: 0 <= i < |post| ==> post[i] != '}'
    ensures var s := pre + "{" + mid + "}" + post;
            && Find(s, "{", 0) == Some(|pre|)
            && LastIndexOf(s, '}') == Some(|pre| + 1 + |mid|)
            && s[|pre|..|pre| + 2 + |mid|] == "{" + mid + "}"
  {
    var s := pre + "{" + mid + "}" + post;
    var i := |pre|;
    var j := |pre| + 1 + |mid|;
    assert s[i..i + 1] == "{";
    forall k | 0 <= k < i ensures !At(s, "{", k) {
      assert s[k] == pre[k];
    }
    FindIs(s, "{", 0, i);
    assert s[j] == '}';
    forall k | j < k < |s| ensures s[k] != '}' {
      assert s[k] == post[k - j - 1];
    }
    assert s[i..j + 1] == "{" + mid + "}";
  }

  /**
   * Without any backtick, a text whose first '{' and last '}' enclose a
   * span yields that span, e.g. a bare JSON object.
   */
  lemma BraceSpanExtracted(pre: string, mid: string, post: string, parse: string -> Option<JsValue>)
    requires NoBacktick(pre + "{" + mid + "}" + post)
    requires forall i :: 0 <= i < |pre| ==> pre[i] != '{'
    requires forall i :: 0 <= i < |post| ==> post[i] != '}'
    ensures ExtractJson(pre + "{" + mid + "}" + post, parse) ==
            (match parse("{" + mid + "}") case Some(v) => Ok(v) case None => Err(InvalidJson))
  {
    NoOpener(pre + "{" + mid + "}" + post);
    BraceEnds(pre, mid, post);
  }

  /** With no fence and no brace span the whole text goes to the parser. */
  lemma WholeTextParsed(s: string, parse: string -> Option<JsValue>)
    requires NoBacktick(s) && forall i :: 0 <= i < |s| ==> s[i] != '{'
    ensures ExtractJson(s, parse) == (match parse(s) case Some(v) => Ok(v) case None => Err(NoJson))
  {
    NoOpener(s);
    forall k | 0 <= k ensures !At(s, "{", k) {
      if k + 1 <= |s| { assert s[k..k + 1][0] == s[k]; }
    }
  }
}
