/**
 * Client parameters for the supported chat models: the per-provider
 * defaults, the builders that lay caller overrides over them, and the
 * tables of known models and aliases.
 */
module LlmConfig {
  import opened Seqs

  /** A keyword argument's value; nothing computes with it, so only its kind and literal matter. */
  datatype Value = Float(f: real) | Int(i: int) | Str(s: string)

  /** Keyword arguments for a chat client. */
  type Kwargs = map<string, Value>

  const DefaultSeed: int := 42

  const OpenAiNonReasoningParams: Kwargs := map[
    "temperature" := Float(0.0),
    "top_p" := Float(1.0),
    "n" := Int(1),
    "seed" := Int(DefaultSeed),
    "presence_penalty" := Float(0.0),
    "frequency_penalty" := Float(0.0)
  ]

  const OpenAiReasoningParams: Kwargs := map[
    "seed" := Int(DefaultSeed),
    "reasoning_effort" := Str("high")
  ]

  const AnthropicParams: Kwargs := map["temperature" := Float(0.0)]

  const GeminiParams: Kwargs := map[
    "temperature" := Float(0.0),
    "top_k" := Int(1),
    "n" := Int(1)
  ]

  /** `LLMConfig`: a frozen record of client keyword arguments. */
  datatype LLMConfig = LLMConfig(clientKwargs: Kwargs)
  {
    /** `as_kwargs`: a fresh dictionary with the same entries as the record. */
    function AsKwargs(): (r: Kwargs)
      ensures r.Keys == clientKwargs.Keys
      ensures forall k :: k in r ==> r[k] == clientKwargs[k]
    {
      clientKwargs
    }
  }

  /** `r` is `base` with `overrides` laid over it: every key of either, the override's value where there is one. */
  predicate Overlays(r: Kwargs, base: Kwargs, overrides: Kwargs) {
    r.Keys == base.Keys + overrides.Keys
    && (forall k :: k in overrides ==> r[k] == overrides[k])
    && (forall k :: k in base && k !in overrides ==> r[k] == base[k])
  }

  /** Only one dictionary is `base` with `overrides` laid over it. */
  lemma OverlaysUnique(r: Kwargs, r': Kwargs, base: Kwargs, overrides: Kwargs)
    requires Overlays(r, base, overrides) && Overlays(r', base, overrides)
    ensures r == r'
  {
    forall k | k in r ensures r[k] == r'[k] {
      if k !in overrides {
        assert k in base;
      }
    }
  }

  /** `{**base, **overrides}`. */
  function Merge(base: Kwargs, overrides: Kwargs): (r: Kwargs)
    ensures Overlays(r, base, overrides)
  {
    base + overrides
  }

  /** Laying two sets of overrides one after the other is laying their merge once. */
  lemma MergeTwice(base: Kwargs, first: Kwargs, second: Kwargs)
    ensures Merge(Merge(base, first), second) == Merge(base, Merge(first, second))
  {
    OverlaysUnique(Merge(Merge(base, first), second), Merge(base, Merge(first, second)), base, Merge(first, second));
  }

  /** `openai_conf`: the reasoning defaults for reasoning models, the others otherwise, with the overrides laid over them. */
  function OpenAiConf(reasoning: bool, overrides: Kwargs): (c: LLMConfig)
    ensures reasoning ==> Overlays(c.clientKwargs, OpenAiReasoningParams, overrides)
    ensures !reasoning ==> Overlays(c.clientKwargs, OpenAiNonReasoningParams, overrides)
  {
    var base := if reasoning then OpenAiReasoningParams else OpenAiNonReasoningParams;
    LLMConfig(Merge(base, overrides))
  }

  /** `anthropic_conf`: the Anthropic defaults with the overrides laid over them. */
  function AnthropicConf(overrides: Kwargs): (c: LLMConfig)
    ensures Overlays(c.clientKwargs, AnthropicParams, overrides)
  {
    LLMConfig(Merge(AnthropicParams, overrides))
  }

  /** `gemini_conf`: the Gemini defaults with the overrides laid over them. */
  function GeminiConf(overrides: Kwargs): (c: LLMConfig)
    ensures Overlays(c.clientKwargs, GeminiParams, overrides)
  {
    LLMConfig(Merge(GeminiParams, overrides))
  }

  /** Without overrides, each builder gives exactly its provider's defaults. */
  lemma DefaultsWithoutOverrides(reasoning: bool)
    ensures OpenAiConf(reasoning, map[]).clientKwargs
      == if reasoning then OpenAiReasoningParams else OpenAiNonReasoningParams
    ensures AnthropicConf(map[]).clientKwargs == AnthropicParams
    ensures GeminiConf(map[]).clientKwargs == GeminiParams
  {
    var base := if reasoning then OpenAiReasoningParams else OpenAiNonReasoningParams;
    OverlaysUnique(OpenAiConf(reasoning, map[]).clientKwargs, base, base, map[]);
    OverlaysUnique(AnthropicConf(map[]).clientKwargs, AnthropicParams, AnthropicParams, map[]);
    OverlaysUnique(GeminiConf(map[]).clientKwargs, GeminiParams, GeminiParams, map[]);
  }

  /** A provider's models, in the order the table lists them. */
  type Models = seq<(string, LLMConfig)>

  /** The model names of a table, in order. */
  function Names(models: Models): (r: seq<string>)
    ensures |r| == |models| && forall j :: 0 <= j < |models| ==> r[j] == models[j].0
  {
    if models == [] then [] else [models[0].0] + Names(models[1..])
  }

  /** The configurations the tables share: every model of a kind gets the same builder call without overrides. */
  const OpenAiReasoningConfig: LLMConfig := OpenAiConf(true, map[])
  const OpenAiStandardConfig: LLMConfig := OpenAiConf(false, map[])
  const AnthropicConfig: LLMConfig := AnthropicConf(map[])
  const GeminiConfig: LLMConfig := GeminiConf(map[])

  const OpenAiModels: Models := [
    ("gpt-5.2", OpenAiReasoningConfig),
    ("gpt-5.2-2025-12-11", OpenAiReasoningConfig),
    ("gpt-5.1", OpenAiReasoningConfig),
    ("gpt-5.1-2025-11-13", OpenAiReasoningConfig),
    ("gpt-5", OpenAiReasoningConfig),
    ("gpt-5-2025-08-07", OpenAiReasoningConfig),
    ("gpt-5-mini", OpenAiReasoningConfig),
    ("gpt-5-mini-2025-08-07", OpenAiReasoningConfig),
    ("gpt-5-nano", OpenAiReasoningConfig),
    ("gpt-5-nano-2025-08-07", OpenAiReasoningConfig),
    ("gpt-4.1", OpenAiStandardConfig),
    ("gpt-4.1-2025-04-14", OpenAiStandardConfig),
    ("gpt-4.1-nano", OpenAiStandardConfig),
    ("gpt-4.1-nano-2025-04-14", OpenAiStandardConfig),
    ("gpt-4.1-mini", OpenAiStandardConfig),
    ("gpt-4.1-mini-2025-04-14", OpenAiStandardConfig)
  ]

  const AnthropicModels: Models := [
    ("claude-sonnet-4-5", AnthropicConfig),
    ("claude-sonnet-4-5-20250929", AnthropicConfig),
    ("claude-haiku-4-5", AnthropicConfig),
    ("claude-haiku-4-5-20251001", AnthropicConfig),
    ("claude-opus-4-1", AnthropicConfig),
    ("claude-opus-4-1-20250805", AnthropicConfig),
    ("claude-opus-4-5", AnthropicConfig),
    ("claude-3-5-sonnet", AnthropicConfig),
    ("claude-3-5-sonnet-20240620", AnthropicConfig),
    ("claude-3-5-haiku", AnthropicConfig),
    ("claude-3-5-haiku-20241022", AnthropicConfig)
  ]

  const GeminiModels: Models := [
    ("gemini-3-pro-preview", GeminiConfig),
    ("gemini-2.5-pro", GeminiConfig),
    ("gemini-2.5-flash", GeminiConfig),
    ("gemini-2.5-flash-lite", GeminiConfig),
    ("gemini-2.0-flash", GeminiConfig)
  ]

  /** The three providers the tables are keyed by. */
  datatype ProviderKey = OpenAi | Anthropic | Gemini
  {
    /** The provider's key in the tables. */
    function Name(): string {
      match this
      case OpenAi => "openai"
      case Anthropic => "anthropic"
      case Gemini => "gemini"
    }
  }

  /** `MODEL_CONFIGS`: each provider's models. */
  function ModelConfigs(p: ProviderKey): Models {
    match p
    case OpenAi => OpenAiModels
    case Anthropic => AnthropicModels
    case Gemini => GeminiModels
  }

  /** `MODEL_ALIASES`: alternative names of some models, per provider, in the order the table lists them. */
  function ModelAliases(p: ProviderKey): seq<(string, string)> {
    match p
    case OpenAi => [("gpt-5.1-latest", "gpt-5.1")]
    case Anthropic => []
    case Gemini => [("gemini-flash-latest", "gemini-2.5-flash"), ("gemini-pro-latest", "gemini-2.5-pro")]
  }

  /** Every alias names a model of the same provider. */
  lemma AliasTargetsConfigured(p: ProviderKey)
    ensures forall i :: 0 <= i < |ModelAliases(p)| ==> ModelAliases(p)[i].1 in Names(ModelConfigs(p))
  {
    match p
    case OpenAi =>
      assert Names(OpenAiModels)[2] == "gpt-5.1";
    case Anthropic =>
    case Gemini =>
      assert Names(GeminiModels)[1] == "gemini-2.5-pro";
      assert Names(GeminiModels)[2] == "gemini-2.5-flash";
  }
}
