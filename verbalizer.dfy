/** verbalizer.py: `ExplanationVerbalizer` turns an explanation context
    (strategy, failure, response) into a prompt for a language model and,
    since the mock switch is on, answers with a canned sentence per
    strategy instead of calling the model. The verbalizer has no state, so
    its methods are functions of the context. */
module Verbalizer {
  import opened Wrappers
  import opened Strings

  /** The context dictionary; only its string entries are read. */
  type Context = map<string, string>

  /** `USE_MOCK` (verbalizer.py:11). */
  const UseMock := true

  /** The strategy named in a context; `build_prompt` and `mock_response`
      compare the name with each of these in turn. */
  datatype Strategy =
    | PreHoc | Reactive | PostHoc | MixedInitiative | Anytime | Replay | Compare
    | Other(name: string)

  /** The name each strategy is given by. */
  function Label(s: Strategy): string {
    match s
    case PreHoc => "pre-hoc"
    case Reactive => "reactive"
    case PostHoc => "post-hoc"
    case MixedInitiative => "mixed-initiative"
    case Anytime => "anytime"
    case Replay => "replay"
    case Compare => "compare"
    case Other(name) => name
  }

  /** The chain of name comparisons; a name it does not know is `Other`. */
  function Classify(name: string): (s: Strategy)
    ensures Label(s) == name
    ensures s.Other? ==> s.name == name
  {
    if name == "pre-hoc" then PreHoc
    else if name == "reactive" then Reactive
    else if name == "post-hoc" then PostHoc
    else if name == "mixed-initiative" then MixedInitiative
    else if name == "anytime" then Anytime
    else if name == "replay" then Replay
    else if name == "compare" then Compare
    else Other(name)
  }

  /** `ctx.get(key, default)`. */
  function Lookup(ctx: Context, key: string, default: string): string {
    if key in ctx then ctx[key] else default
  }

  /** The first line of every prompt. */
  function Base(strategy: string): string {
    "You are a helpful robot using a planning strategy: " + strategy + ".\n"
  }

  const GenericInstruction := "Explain" + " your behavior clearly in context."

  /** `'x'`: a value quoted inside a prompt. */
  function Quote(x: string): string { "'" + x + "'" }

  /** The instruction that follows the first line; a missing failure or
      response is formatted as Python's `None`. Each text is written as its
      first word followed by the rest, so that texts can be told apart by
      their first characters. */
  function Instruction(strategy: Strategy, failure: string, response: string): string {
    match strategy
    case PreHoc =>
      "You" + " created a plan in advance to achieve a goal. Explain the plan and its purpose in 1-2 sentences."
    case Reactive =>
      "You" + " detected a failure during execution and replanned. The failure was " + Quote(failure) + ". Explain how you adapted."
    case PostHoc =>
      "After" + " executing the plan, a failure of type " + Quote(failure) + " was found. You responded with " + Quote(response)
      + ". Explain this to the user."
    case MixedInitiative =>
      "The" + " user selected one of several options. Explain how their choice shaped the plan."
    case Anytime =>
      "You" + " generated the best plan possible under a time limit. Explain the trade-offs and decisions you made."
    case Replay =>
      "This" + " plan was replayed from a log. Describe what the robot did and why."
    case Compare =>
      "You" + " compared multiple strategies. Summarize their key differences."
    case Other(_) => GenericInstruction
  }

  /** Two texts with different characters at one position differ. */
  lemma Differ(a: string, b: string, k: nat)
    requires k < |a| && k < |b| && a[k] != b[k]
    ensures a != b
  {
  }

  /** Texts whose openings differ at one position differ. */
  lemma OpeningDiffers(h: string, x: string, g: string, y: string, k: nat)
    requires k < |h| && k < |g| && h[k] != g[k]
    ensures h + x != g + y
  {
    assert (h + x)[k] == h[k];
  }

  /** Exactly the strategies without a prompt of their own get the generic
      instruction (every other instruction starts with another letter). */
  lemma GenericIffUnknown(strategy: Strategy, failure: string, response: string)
    ensures Instruction(strategy, failure, response) == GenericInstruction <==> strategy.Other?
  {
    if strategy == Reactive || strategy == PostHoc {
      QuotingInstruction(strategy, failure, response);
    } else if !strategy.Other? {
      PlainInstruction(strategy, failure, response);
    }
  }

  /** The instructions that quote the context are not the generic one. */
  lemma QuotingInstruction(strategy: Strategy, failure: string, response: string)
    requires strategy == Reactive || strategy == PostHoc
    ensures Instruction(strategy, failure, response) != GenericInstruction
  {
    if strategy == Reactive {
      OpeningDiffers("You", " detected a failure during execution and replanned. The failure was " + Quote(failure)
        + ". Explain how you adapted.", "Explain", " your behavior clearly in context.", 0);
    } else {
      OpeningDiffers("After", " executing the plan, a failure of type " + Quote(failure) + " was found. You responded with "
        + Quote(response) + ". Explain this to the user.", "Explain", " your behavior clearly in context.", 0);
    }
  }

  /** The fixed instructions start with another letter than the generic one. */
  lemma PlainInstruction(strategy: Strategy, failure: string, response: string)
    requires !strategy.Other? && strategy != Reactive && strategy != PostHoc
    ensures Instruction(strategy, failure, response) != GenericInstruction
  {
    var r := Instruction(strategy, failure, response);
    match strategy
    case PreHoc => Differ(r, GenericInstruction, 0);
    case MixedInitiative => Differ(r, GenericInstruction, 0);
    case Anytime => Differ(r, GenericInstruction, 0);
    case Replay => Differ(r, GenericInstruction, 0);
    case Compare => Differ(r, GenericInstruction, 0);
  }

  /** `build_prompt(ctx)` (verbalizer.py:26-48): the strategy defaults to
      `unknown`, failure and response to `None`. */
  function BuildPrompt(ctx: Context): (r: string)
    ensures StartsWith(r, Base(Lookup(ctx, "strategy", "unknown")))
  {
    var strategy := Lookup(ctx, "strategy", "unknown");
    Base(strategy) + Instruction(Classify(strategy), Lookup(ctx, "failure", "None"), Lookup(ctx, "response", "None"))
  }

  /** Outside post-hoc, the prompt depends only on the strategy, and on the
      failure as well for the reactive strategy; never on the response. */
  lemma PromptDetails(ctx: Context, ctx': Context)
    requires Lookup(ctx, "strategy", "unknown") == Lookup(ctx', "strategy", "unknown")
    requires Classify(Lookup(ctx, "strategy", "unknown")) != PostHoc
    requires Classify(Lookup(ctx, "strategy", "unknown")) == Reactive ==> Lookup(ctx, "failure", "None") == Lookup(ctx', "failure", "None")
    ensures BuildPrompt(ctx) == BuildPrompt(ctx')
  {
  }

  /** The post-hoc prompt quotes the failure and the response. */
  lemma PostHocPromptQuotes(ctx: Context)
    requires Classify(Lookup(ctx, "strategy", "unknown")) == PostHoc
    ensures Contains(BuildPrompt(ctx), Quote(Lookup(ctx, "failure", "None")))
    ensures Contains(BuildPrompt(ctx), Quote(Lookup(ctx, "response", "None")))
  {
    var failure, response := Lookup(ctx, "failure", "None"), Lookup(ctx, "response", "None");
    var base := Base(Lookup(ctx, "strategy", "unknown"));
    var r := Instruction(PostHoc, failure, response);
    assert BuildPrompt(ctx) == base + r;
    assert base + r + [] == base + r;
    PostHocInstructionQuotes(failure, response);
    ContainsWider(base, r, [], Quote(failure));
    ContainsWider(base, r, [], Quote(response));
  }

  /** The reactive prompt quotes the failure. */
  lemma ReactivePromptQuotes(ctx: Context)
    requires Classify(Lookup(ctx, "strategy", "unknown")) == Reactive
    ensures Contains(BuildPrompt(ctx), Quote(Lookup(ctx, "failure", "None")))
  {
    var failure, response := Lookup(ctx, "failure", "None"), Lookup(ctx, "response", "None");
    var base := Base(Lookup(ctx, "strategy", "unknown"));
    var r := Instruction(Reactive, failure, response);
    assert BuildPrompt(ctx) == base + r;
    assert base + r + [] == base + r;
    ContainsMiddle("You" + " detected a failure during execution and replanned. The failure was ", Quote(failure),
      ". Explain how you adapted.");
    ContainsWider(base, r, [], Quote(failure));
  }

  /** The post-hoc instruction quotes both values. */
  lemma PostHocInstructionQuotes(failure: string, response: string)
    ensures Contains(Instruction(PostHoc, failure, response), Quote(failure))
    ensures Contains(Instruction(PostHoc, failure, response), Quote(response))
  {
    HoldsBoth("After" + " executing the plan, a failure of type ", Quote(failure), " was found. You responded with ",
      Quote(response), ". Explain this to the user.");
  }

  /** A text holds the two values written into it. */
  lemma HoldsBoth(a: string, f: string, m: string, q: string, t: string)
    ensures Contains(a + f + m + q + t, f) && Contains(a + f + m + q + t, q)
  {
    ContainsMiddle(a, f, []);
    assert a + f + [] == a + f;
    ContainsWider([], a + f, m, f);
    assert [] + (a + f) + m == a + f + m;
    ContainsWider([], a + f + m, q, f);
    assert [] + (a + f + m) + q == a + f + m + q;
    ContainsWider([], a + f + m + q, t, f);
    assert [] + (a + f + m + q) + t == a + f + m + q + t;
    ContainsMiddle(a + f + m, q, t);
  }

  /** The canned answer for strategies without a template of their own. */
  const DefaultAnswer := "I'm explaining" + " my decision in the best way I can."

  /** The canned answer of each strategy (`mock_templates`), written, like
      the instructions, as a first word and the rest. */
  function Template(strategy: Strategy, failure: string, response: string): string {
    match strategy
    case PreHoc => "I planned" + " ahead to ensure everything ran smoothly."
    case Reactive => "I encountered " + failure + ", so I replanned and adjusted to continue."
    case PostHoc => "After noticing " + failure + ", I responded with " + response + " to resolve it."
    case MixedInitiative => "You" + " picked a plan variant. I followed that to match your preference."
    case Anytime => "Time" + " was short, so I picked a fast but effective strategy."
    case Replay => "I'm showing" + " you what I previously did so you can review it."
    case Compare => "Here" + " are different plans. Each has pros and cons."
    case Other(_) => DefaultAnswer
  }

  /** Exactly the strategies without a template get the default answer. */
  lemma TemplateDefault(strategy: Strategy, failure: string, response: string)
    ensures Template(strategy, failure, response) == DefaultAnswer <==> strategy.Other?
  {
    if strategy == PreHoc || strategy == Reactive || strategy == Replay {
      TemplateOpensAlike(strategy, failure, response);
    } else if !strategy.Other? {
      Differ(Template(strategy, failure, response), DefaultAnswer, 0);
    }
  }

  /** The templates that start with `I` part from the default answer later. */
  lemma TemplateOpensAlike(strategy: Strategy, failure: string, response: string)
    requires strategy == PreHoc || strategy == Reactive || strategy == Replay
    ensures Template(strategy, failure, response) != DefaultAnswer
  {
    if strategy == Replay {
      Differ(Template(strategy, failure, response), DefaultAnswer, 4);
    } else {
      Differ(Template(strategy, failure, response), DefaultAnswer, 1);
    }
  }

  /** No canned answer is the language model placeholder. */
  lemma NotPlaceholder(strategy: Strategy, failure: string, response: string)
    ensures Template(strategy, failure, response) != Placeholder
  {
    Differ(Template(strategy, failure, response), Placeholder, 0);
  }

  /** `mock_response(ctx)` (verbalizer.py:60-75): a missing strategy is
      `None`, which has no template; failure and response default to
      `a problem` and `a solution`. */
  function MockResponse(ctx: Context): (r: string)
    ensures r == DefaultAnswer <==> "strategy" !in ctx || Classify(ctx["strategy"]).Other?
    ensures r != Placeholder
  {
    var failure := Lookup(ctx, "failure", "a problem");
    var response := Lookup(ctx, "response", "a solution");
    if "strategy" !in ctx then
      NotPlaceholder(Other(""), failure, response);
      DefaultAnswer
    else
      var strategy := Classify(ctx["strategy"]);
      TemplateDefault(strategy, failure, response);
      NotPlaceholder(strategy, failure, response);
      Template(strategy, failure, response)
  }

  /** The reactive and post-hoc answers name the failure (or `a problem`),
      the post-hoc answer also the response (or `a solution`). */
  lemma MockMentions(ctx: Context)
    requires "strategy" in ctx && (Classify(ctx["strategy"]) == Reactive || Classify(ctx["strategy"]) == PostHoc)
    ensures Contains(MockResponse(ctx), Lookup(ctx, "failure", "a problem"))
    ensures Classify(ctx["strategy"]) == PostHoc ==> Contains(MockResponse(ctx), Lookup(ctx, "response", "a solution"))
  {
    var f, resp := Lookup(ctx, "failure", "a problem"), Lookup(ctx, "response", "a solution");
    var r := MockResponse(ctx);
    if Classify(ctx["strategy"]) == Reactive {
      ContainsMiddle("I encountered ", f, ", so I replanned and adjusted to continue.");
    } else {
      var a, m, t := "After noticing ", ", I responded with ", " to resolve it.";
      assert r == a + f + (m + resp + t);
      ContainsMiddle(a, f, m + resp + t);
      assert r == (a + f + m) + resp + t;
      ContainsMiddle(a + f + m, resp, t);
    }
  }

  /** The text the language model stub answers with. */
  const Placeholder := "[LLM" + " response would go here]"

  /** `call_llm(prompt)` (verbalizer.py:50-58): a stub. */
  function CallLlm(prompt: string): string {
    Placeholder
  }

  /** `verbalize(ctx)` (verbalizer.py:17-24): the prompt is built and
      logged, and with the mock switch on the canned answer is returned. */
  function Verbalize(ctx: Context): (r: string)
    ensures r == MockResponse(ctx)
    ensures r != Placeholder
  {
    var prompt := BuildPrompt(ctx);
    if UseMock then MockResponse(ctx) else CallLlm(prompt)
  }
}
