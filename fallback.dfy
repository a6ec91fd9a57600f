/** The summariser chain of `summarize_text` (main.py:210-288): the cleaned
 *  text goes first to Cohere, when a key is configured, then to three
 *  HuggingFace models in a fixed order; the first usable reply wins and
 *  `None` comes back when every provider fails. */
module Fallback {
  import opened PyStr
  import Cleanup

  datatype Option<T> = None | Some(value: T)

  /** A configuration value read with `os.getenv`, truthy when set and non-empty. */
  predicate Truthy(v: Option<string>) {
    v.Some? && v.value != ""
  }

  datatype Provider = Cohere | DistilBart | T5Small | BartLargeCnn

  /** The model each provider is asked for. */
  function ModelName(p: Provider): string {
    match p
    case Cohere => "command-r-plus"
    case DistilBart => "sshleifer/distilbart-cnn-6-6"
    case T5Small => "t5-small"
    case BartLargeCnn => "facebook/bart-large-cnn"
  }

  /** The URL each provider's request is posted to. */
  function Endpoint(p: Provider): string {
    if p == Cohere then "https://api.cohere.ai/v1/generate"
    else "https://api-inference.huggingface.co/models/" + ModelName(p)
  }

  /** One POST: the provider and the text it is sent (the prompt for Cohere,
      the `inputs` field for HuggingFace). */
  datatype Request = Request(provider: Provider, input: string)

  /** The decoded body of a 200 reply: the list of generated texts (Cohere's
      `generations[*].text`, HuggingFace's `[*].summary_text`), or any other shape. */
  datatype Payload = Summaries(texts: seq<string>) | Unexpected

  /** What a POST comes back with: an exception (timeout, connection error,
      undecodable JSON, a missing key), or a status and a payload. */
  datatype Reply = Raised | Response(status: int, payload: Payload)

  /** HuggingFace inputs after the first are cut to this many characters. */
  const InputLimit: nat := 1000

  const PromptHead: string :=
    "Please provide a concise summary of the following newsletter content. Focus on the key points and main takeaways:\n\n"
  const PromptTail: string := "\n\nSummary:"
  const T5Prefix: string := "summarize: "

  /** The Cohere prompt: a fixed instruction, the text, and a `Summary:` cue. */
  function CoherePrompt(text: string): (prompt: string)
    ensures |prompt| == |PromptHead| + |text| + |PromptTail|
    ensures prompt[..|PromptHead|] == PromptHead
    ensures prompt[|PromptHead|..|PromptHead| + |text|] == text
    ensures prompt[|PromptHead| + |text|..] == PromptTail
  {
    var prompt := PromptHead + text + PromptTail;
    assert prompt[..|PromptHead|] == PromptHead;
    assert prompt[|PromptHead|..|PromptHead| + |text|] == text;
    assert prompt[|PromptHead| + |text|..] == PromptTail;
    prompt
  }

  /** `models_to_try`: the three HuggingFace requests, in order. */
  function HuggingFacePlan(text: string): seq<Request> {
    [ Request(DistilBart, text),
      Request(T5Small, T5Prefix + Take(text, InputLimit)),
      Request(BartLargeCnn, Take(text, InputLimit)) ]
  }

  /** Every request `summarize_text` may make, in the order it makes them. */
  function Plan(cohereKey: Option<string>, text: string): seq<Request> {
    (if Truthy(cohereKey) then [Request(Cohere, CoherePrompt(text))] else [])
    + HuggingFacePlan(text)
  }

  /** The summary a reply yields, if any: a 200 status and a non-empty list.
      Cohere's text is stripped; a HuggingFace `summary_text` is returned as is. */
  function Accept(p: Provider, reply: Reply): (summary: Option<string>)
    ensures summary.Some? <==> reply.Response? && reply.status == 200
                               && reply.payload.Summaries? && |reply.payload.texts| > 0
    ensures summary.Some? && p == Cohere ==> summary.value == Strip(reply.payload.texts[0])
    ensures summary.Some? && p != Cohere ==> summary.value == reply.payload.texts[0]
  {
    match reply
    case Response(200, Summaries(texts)) =>
      if |texts| == 0 then None
      else if p == Cohere then Some(Strip(texts[0]))
      else Some(texts[0])
    case _ => None
  }

  predicate Fails(r: Request, net: Request -> Reply) {
    Accept(r.provider, net(r)).None?
  }

  /** The result of running a plan: the summary, and the requests posted. */
  datatype Outcome = Outcome(summary: Option<string>, posted: seq<Request>)

  /** Running a plan against the network: requests are posted in order until
      one yields a summary. */
  function RunChain(plan: seq<Request>, net: Request -> Reply): Outcome
    decreases |plan|
  {
    if plan == [] then Outcome(None, [])
    else
      var first := Accept(plan[0].provider, net(plan[0]));
      if first.Some? then Outcome(first, [plan[0]])
      else
        var rest := RunChain(plan[1..], net);
        Outcome(rest.summary, [plan[0]] + rest.posted)
  }

  /** The requests posted are a prefix of the plan, every one but the last
      failed, a summary comes from the last one, and no summary means the
      whole plan was posted and failed. */
  lemma {:induction false} RunChainSpec(plan: seq<Request>, net: Request -> Reply)
    ensures var o := RunChain(plan, net);
            && |o.posted| <= |plan| && o.posted == plan[..|o.posted|]
            && (forall k :: 0 <= k < |o.posted| - 1 ==> Fails(plan[k], net))
            && (o.summary.Some? ==>
                  |o.posted| > 0 && o.summary == Accept(plan[|o.posted| - 1].provider, net(plan[|o.posted| - 1])))
            && (o.summary.None? ==> o.posted == plan && forall k :: 0 <= k < |plan| ==> Fails(plan[k], net))
    decreases |plan|
  {
    if plan != [] && Accept(plan[0].provider, net(plan[0])).None? {
      var tail := plan[1..];
      RunChainSpec(tail, net);
      assert forall k :: 1 <= k < |plan| ==> tail[k - 1] == plan[k];
      var r := RunChain(tail, net);
      assert [plan[0]] + r.posted == plan[..|r.posted| + 1];
    }
  }

  /** The first request that yields a summary ends the chain: nothing after
      it is posted, and its summary is the result. */
  lemma {:induction false} FirstSuccessWins(plan: seq<Request>, net: Request -> Reply, j: nat)
    requires j < |plan| && !Fails(plan[j], net)
    requires forall k :: 0 <= k < j ==> Fails(plan[k], net)
    ensures RunChain(plan, net) == Outcome(Accept(plan[j].provider, net(plan[j])), plan[..j + 1])
    decreases j
  {
    if j > 0 {
      var tail := plan[1..];
      assert forall k :: 0 <= k < j - 1 ==> tail[k] == plan[k + 1];
      FirstSuccessWins(tail, net, j - 1);
      assert RunChain(plan, net).posted == [plan[0]] + RunChain(tail, net).posted;
      assert plan[..j + 1] == [plan[0]] + tail[..j];
    }
  }

  /** When every request fails, all of them are posted and the result is `None`. */
  lemma {:induction false} AllFailed(plan: seq<Request>, net: Request -> Reply)
    requires forall k :: 0 <= k < |plan| ==> Fails(plan[k], net)
    ensures RunChain(plan, net) == Outcome(None, plan)
    decreases |plan|
  {
    if plan != [] {
      assert forall k :: 0 <= k < |plan| - 1 ==> plan[1..][k] == plan[k + 1];
      AllFailed(plan[1..], net);
    }
  }

  /** What `summarize_text` does with a raw newsletter body. */
  function Summarize(u: Cleanup.UnicodeDb, cohereKey: Option<string>, raw: string, net: Request -> Reply): Outcome {
    RunChain(Plan(cohereKey, Cleanup.Cleaned(u, raw)), net)
  }

  /** The `models_to_try` loop of `summarize_text`: each HuggingFace model
      in turn, returning at the first usable reply. */
  method TryHuggingFace(text: string, net: Request -> Reply)
    returns (summary: Option<string>, posted: seq<Request>)
    ensures Outcome(summary, posted) == RunChain(HuggingFacePlan(text), net)
  {
    var models := HuggingFacePlan(text);
    posted := [];
    for i := 0 to |models|
      invariant posted == models[..i]
      invariant forall k :: 0 <= k < i ==> Fails(models[k], net)
    {
      var reply := net(models[i]);
      PrefixSnoc(models, i);
      posted := posted + [models[i]];
      summary := Accept(models[i].provider, reply);
      if summary.Some? {
        FirstSuccessWins(models, net, i);
        return;
      }
    }
    summary := None;
    AllFailed(models, net);
  }

  /** The provider part of `summarize_text`: Cohere when configured, then the
      HuggingFace models. */
  method TryProviders(cohereKey: Option<string>, text: string, net: Request -> Reply)
    returns (summary: Option<string>, posted: seq<Request>)
    ensures Outcome(summary, posted) == RunChain(Plan(cohereKey, text), net)
  {
    if Truthy(cohereKey) {
      var request := Request(Cohere, CoherePrompt(text));
      assert Plan(cohereKey, text) == [request] + HuggingFacePlan(text);
      summary := Accept(Cohere, net(request));
      if summary.Some? {
        return summary, [request];
      }
      var rest;
      summary, rest := TryHuggingFace(text, net);
      posted := [request] + rest;
      CohereFailed(text, net, request);
    } else {
      assert Plan(cohereKey, text) == HuggingFacePlan(text);
      summary, posted := TryHuggingFace(text, net);
    }
  }

  /** After a failed Cohere request the chain goes on with the HuggingFace models. */
  lemma CohereFailed(text: string, net: Request -> Reply, request: Request)
    requires Fails(request, net)
    ensures var o := RunChain(HuggingFacePlan(text), net);
            RunChain([request] + HuggingFacePlan(text), net) == Outcome(o.summary, [request] + o.posted)
  {
    assert ([request] + HuggingFacePlan(text))[1..] == HuggingFacePlan(text);
  }

  /** `summarize_text`: the cleanup, then the providers. */
  method SummarizeText(u: Cleanup.UnicodeDb, cohereKey: Option<string>, raw: string, net: Request -> Reply)
    returns (summary: Option<string>, posted: seq<Request>)
    ensures Outcome(summary, posted) == Summarize(u, cohereKey, raw, net)
  {
    var text := Cleanup.CleanText(u, raw);
    summary, posted := TryProviders(cohereKey, text, net);
  }

  /** The providers in the order `summarize_text` consults them. */
  lemma PlanOrder(cohereKey: Option<string>, text: string)
    ensures var plan := Plan(cohereKey, text);
            && |plan| == (if Truthy(cohereKey) then 4 else 3)
            && (Truthy(cohereKey) ==> plan[0] == Request(Cohere, CoherePrompt(text)))
            && plan[|plan| - 3].provider == DistilBart
            && plan[|plan| - 2].provider == T5Small
            && plan[|plan| - 1].provider == BartLargeCnn
            && forall k :: 0 <= k < |plan| && plan[k].provider == Cohere ==> k == 0 && Truthy(cohereKey)
  {
  }

  /** DistilBART gets the whole cleaned text; t5-small gets `summarize: ` and
      at most `InputLimit` characters of it; BART-large-CNN gets those
      characters alone. */
  lemma HuggingFaceInputs(text: string)
    ensures var plan := HuggingFacePlan(text);
            && plan[0].input == text
            && plan[2].input <= text && |plan[2].input| == Min(|text|, InputLimit)
            && plan[1].input == T5Prefix + plan[2].input
            && |plan[1].input| <= |T5Prefix| + InputLimit
  {
  }

  function Min(a: int, b: int): int {
    if a < b then a else b
  }

  /** Cohere goes first when its key is set: a usable reply ends the chain at
      once, even when its text strips down to nothing. */
  lemma CohereShortCircuits(cohereKey: Option<string>, text: string, net: Request -> Reply)
    requires Truthy(cohereKey)
    requires var reply := net(Request(Cohere, CoherePrompt(text)));
             reply.Response? && reply.status == 200 && reply.payload.Summaries? && |reply.payload.texts| > 0
    ensures var o := RunChain(Plan(cohereKey, text), net);
            && o.posted == [Request(Cohere, CoherePrompt(text))]
            && o.summary == Some(Strip(net(Request(Cohere, CoherePrompt(text))).payload.texts[0]))
  {
    var plan := Plan(cohereKey, text);
    assert plan[0] == Request(Cohere, CoherePrompt(text));
    FirstSuccessWins(plan, net, 0);
    assert plan[..1] == [plan[0]];
  }

  /** Without a key Cohere is never asked. */
  lemma NoKeyNoCohere(cohereKey: Option<string>, text: string, net: Request -> Reply)
    requires !Truthy(cohereKey)
    ensures forall r :: r in RunChain(Plan(cohereKey, text), net).posted ==> r.provider != Cohere
  {
    var plan := Plan(cohereKey, text);
    var o := RunChain(plan, net);
    RunChainSpec(plan, net);
    forall r | r in o.posted ensures r.provider != Cohere {
      var k :| 0 <= k < |o.posted| && o.posted[k] == r;
      assert r == plan[k];
    }
  }

  /** The chain comes back with no summary exactly when every provider it
      tried failed; a failure never escapes as an exception. */
  lemma {:induction false} NoneExactlyWhenAllFail(plan: seq<Request>, net: Request -> Reply)
    ensures RunChain(plan, net).summary.None? <==> forall k :: 0 <= k < |plan| ==> Fails(plan[k], net)
  {
    RunChainSpec(plan, net);
    if forall k :: 0 <= k < |plan| ==> Fails(plan[k], net) {
      AllFailed(plan, net);
    }
  }

  /** Every request carries at most the text and the fixed prompt around it. */
  lemma PlanInputsBounded(cohereKey: Option<string>, text: string)
    ensures var plan := Plan(cohereKey, text);
            forall k :: 0 <= k < |plan| ==> |plan[k].input| <= |PromptHead| + |text| + |PromptTail|
  {
  }

  /** So the cleaned text keeps every request bounded: the Cohere prompt and
      the DistilBART input carry at most `MaxLength` characters of text. */
  lemma RequestsBounded(u: Cleanup.UnicodeDb, cohereKey: Option<string>, raw: string)
    ensures var plan := Plan(cohereKey, Cleanup.Cleaned(u, raw));
            forall k :: 0 <= k < |plan| ==>
              |plan[k].input| <= |PromptHead| + Cleanup.MaxLength + |PromptTail|
  {
    var text := Cleanup.Cleaned(u, raw);
    Cleanup.CleanedShape(u, raw);
    PlanInputsBounded(cohereKey, text);
  }
}
