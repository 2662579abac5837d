/**
 * The provider table and `infer_provider`: which provider serves a model
 * name, and with which client parameters.
 */
module Providers {
  import opened Wrappers
  import opened Text
  import opened Seqs
  import opened LlmConfig

  /** The SDK constructor a provider builds its client with; the constructors themselves are not modelled. */
  datatype Builder = BuildOpenAi | BuildAnthropic | BuildGemini

  /** `Provider`: a name, its models with their parameters, in table order, and its client constructor. */
  datatype Provider = Provider(name: string, models: Models, builder: Builder)

  /** `PROVIDERS`, in search order. */
  const ProviderTable: seq<Provider> := [
    Provider("openai", ModelConfigs(OpenAi), BuildOpenAi),
    Provider("anthropic", ModelConfigs(Anthropic), BuildAnthropic),
    Provider("gemini", ModelConfigs(Gemini), BuildGemini)
  ]

  /**
   * `_normalize`: the name without surrounding whitespace, in lower case.
   * A normal form has no surrounding whitespace and no upper-case letters.
   */
  function Normalize(name: string): (r: string)
    ensures |r| <= |name|
    ensures r != [] ==> !IsSpace(r[0]) && !IsSpace(r[|r| - 1])
    ensures forall k :: 0 <= k < |r| ==> !('A' <= r[k] <= 'Z')
  {
    StripSpec(name);
    LowerKeepsSpace(Strip(name));
    Lower(Strip(name))
  }

  /** Normalizing a normalized name changes nothing. */
  lemma NormalizeTwice(name: string)
    ensures Normalize(Normalize(name)) == Normalize(name)
  {
    var n := Normalize(name);
    StripIdempotent(n);
    LowerIdempotent(Strip(name));
  }

  /** Whitespace around a name and the case of its letters do not change its normal form. */
  lemma NormalizePadded(pre: string, name: string, post: string)
    requires AllSpace(pre) && AllSpace(post)
    requires name != [] && !IsSpace(name[0]) && !IsSpace(name[|name| - 1])
    ensures Normalize(pre + name + post) == Lower(name)
  {
    StripPadded(pre, name, post);
  }

  /** A name padded with whitespace has the normal form of the name itself. */
  lemma SamePaddedForm(pre: string, name: string, post: string)
    requires AllSpace(pre) && AllSpace(post)
    requires name != [] && !IsSpace(name[0]) && !IsSpace(name[|name| - 1])
    ensures Normalize(pre + name + post) == Normalize(name)
  {
    NormalizePadded(pre, name, post);
    NormalizePadded("", name, "");
    assert "" + name + "" == name;
  }

  /** The model `j` of provider `i` has the normal form `normalized`. */
  predicate MatchAt(providers: seq<Provider>, normalized: string, i: int, j: int) {
    0 <= i < |providers| && 0 <= j < |providers[i].models| && Normalize(providers[i].models[j].0) == normalized
  }

  /** Position `(i, j)` comes before `(i', j')` in search order: providers first, then models in table order. */
  predicate Earlier(i: int, j: int, i': int, j': int) {
    i < i' || (i == i' && j < j')
  }

  /** The first model of `models` from position `from` on, in table order, whose name has the normal form `normalized`. */
  function FirstModel(models: Models, normalized: string, from: nat): (r: Option<nat>)
    requires from <= |models|
    ensures r.Some? ==> from <= r.value < |models| && Normalize(models[r.value].0) == normalized
    ensures r.Some? ==> forall j :: from <= j < r.value ==> Normalize(models[j].0) != normalized
    ensures r.None? ==> forall j :: from <= j < |models| ==> Normalize(models[j].0) != normalized
    decreases |models| - from
  {
    if from == |models| then None
    else if Normalize(models[from].0) == normalized then Some(from)
    else FirstModel(models, normalized, from + 1)
  }

  /** The first position, in search order, of a model whose name has the normal form `normalized`, among the providers from `from` on. */
  function FirstMatch(providers: seq<Provider>, normalized: string, from: nat): (r: Option<(nat, nat)>)
    requires from <= |providers|
    ensures r.Some? ==> from <= r.value.0 && MatchAt(providers, normalized, r.value.0, r.value.1)
    ensures r.Some? ==> forall i, j :: from <= i && Earlier(i, j, r.value.0, r.value.1) ==> !MatchAt(providers, normalized, i, j)
    ensures r.None? ==> forall i, j :: from <= i ==> !MatchAt(providers, normalized, i, j)
    decreases |providers| - from
  {
    if from == |providers| then None
    else match FirstModel(providers[from].models, normalized, 0)
      case Some(j) => Some((from, j))
      case None => FirstMatch(providers, normalized, from + 1)
  }

  /** The two `ValueError`s `infer_provider` raises. */
  datatype ProviderError = EmptyModelName | Unsupported(modelName: string)

  /** `"<name>: <model>, <model>, ..."` for each provider, as the error message lists them. */
  function Listing(providers: seq<Provider>): (r: seq<string>)
    ensures |r| == |providers|
    ensures forall i :: 0 <= i < |providers| ==> r[i] == providers[i].name + ": " + Join(Names(providers[i].models), ", ")
  {
    if providers == [] then []
    else [providers[0].name + ": " + Join(Names(providers[0].models), ", ")] + Listing(providers[1..])
  }

  /** The text of each error; the unsupported-model message quotes the name given. */
  function Message(e: ProviderError): (r: string)
    ensures e.Unsupported? ==> |r| >= 7 + |e.modelName| && r[..7] == "Model '" && r[7..7 + |e.modelName|] == e.modelName
    ensures e.EmptyModelName? ==> r == "Model name must be non-empty when inferring provider."
  {
    match e
    case EmptyModelName => "Model name must be non-empty when inferring provider."
    case Unsupported(modelName) => UnsupportedText(modelName, Join(Listing(ProviderTable), ", "))
  }

  /** The unsupported-model message for `modelName`, ending with the `options` listed. */
  function UnsupportedText(modelName: string, options: string): (r: string)
    ensures |r| >= 7 + |modelName| && r[..7] == "Model '" && r[7..7 + |modelName|] == modelName
    ensures |r| >= |options| && r[|r| - |options|..] == options
  {
    "Model '" + modelName + "' is not supported. Available options -> " + options
  }

  /**
   * What `infer_provider` returns: an empty name is an error; otherwise
   * the provider and parameters of the first model, in search order,
   * whose name matches once both are normalized, or an error naming the
   * model when none does.
   */
  function Inferred(modelName: string): (r: Result<(Provider, LLMConfig), ProviderError>)
    ensures modelName == [] <==> r == Err(EmptyModelName)
    ensures r.Ok? ==> exists i, j ::
      MatchAt(ProviderTable, Normalize(modelName), i, j) && r.value == (ProviderTable[i], ProviderTable[i].models[j].1)
    ensures r.Err? && modelName != [] ==>
      r == Err(Unsupported(modelName)) && forall i, j :: !MatchAt(ProviderTable, Normalize(modelName), i, j)
  {
    if modelName == [] then Err(EmptyModelName)
    else match FirstMatch(ProviderTable, Normalize(modelName), 0)
      case None => Err(Unsupported(modelName))
      case Some((i, j)) => Ok((ProviderTable[i], ProviderTable[i].models[j].1))
  }

  /** A match with no earlier match is the first match. */
  lemma FirstMatchIs(providers: seq<Provider>, normalized: string, i: nat, j: nat)
    requires MatchAt(providers, normalized, i, j)
    requires forall i', j' :: Earlier(i', j', i, j) ==> !MatchAt(providers, normalized, i', j')
    ensures FirstMatch(providers, normalized, 0) == Some((i, j))
  {
    var m := FirstMatch(providers, normalized, 0);
    assert m.Some?;
    var (a, b) := m.value;
    assert !Earlier(i, j, a, b) && !Earlier(a, b, i, j);
  }

  /** The first match in search order wins: a match with no earlier match is the one returned. */
  lemma InferredFirst(modelName: string, i: nat, j: nat)
    requires modelName != []
    requires MatchAt(ProviderTable, Normalize(modelName), i, j)
    requires forall i', j' :: Earlier(i', j', i, j) ==> !MatchAt(ProviderTable, Normalize(modelName), i', j')
    ensures Inferred(modelName) == Ok((ProviderTable[i], ProviderTable[i].models[j].1))
  {
    FirstMatchIs(ProviderTable, Normalize(modelName), i, j);
  }

  /** Whitespace around the name and the case of its letters do not change which model is found. */
  lemma InferredPadded(pre: string, name: string, post: string)
    requires AllSpace(pre) && AllSpace(post)
    requires name != [] && !IsSpace(name[0]) && !IsSpace(name[|name| - 1])
    ensures Inferred(pre + name + post)
      == if Inferred(name).Ok? then Inferred(name) else Err(Unsupported(pre + name + post))
  {
    SamePaddedForm(pre, name, post);
  }

  /**
   * The nested loop of `infer_provider`: the providers in order, and
   * within each its models in table order, stopping at the first whose
   * name has the normal form `normalized`.
   */
  method FindMatch(providers: seq<Provider>, normalized: string) returns (r: Option<(nat, nat)>)
    ensures r == FirstMatch(providers, normalized, 0)
  {
    for i := 0 to |providers|
      invariant forall i', j :: i' < i ==> !MatchAt(providers, normalized, i', j)
    {
      var provider := providers[i];
      for j := 0 to |provider.models|
        invariant forall i', j' :: Earlier(i', j', i, j) ==> !MatchAt(providers, normalized, i', j')
      {
        var candidate := provider.models[j].0;
        if Normalize(candidate) == normalized {
          FirstMatchIs(providers, normalized, i, j);
          return Some((i, j));
        }
      }
    }
    return None;
  }

  /**
   * `infer_provider`: an empty name is refused; otherwise the provider
   * and parameters at the first match, or an error naming the model.
   */
  method InferProvider(modelName: string) returns (r: Result<(Provider, LLMConfig), ProviderError>)
    ensures r == Inferred(modelName)
  {
    if modelName == [] {
      return Err(EmptyModelName);
    }
    var normalized := Normalize(modelName);
    var found := FindMatch(ProviderTable, normalized);
    match found
    case None =>
      return Err(Unsupported(modelName));
    case Some((i, j)) =>
      var provider := ProviderTable[i];
      return Ok((provider, provider.models[j].1));
  }
}
