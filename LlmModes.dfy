/**
 * The two LLM modes a configuration may ask for, and the validation of a
 * configured mode (`normalize_llm_mode`).
 */
module LlmModes {
  import opened Wrappers
  import opened Text

  const Deterministic: string := "deterministic"
  const Creative: string := "creative"

  /** `LLM_MODES`, in their declared order. */
  const Modes: seq<string> := [Deterministic, Creative]

  const DefaultMode: string := Deterministic

  /** The `ValueError` raised for a mode that is not known; it carries the mode as given. */
  datatype ModeError = UnknownMode(got: string)

  /**
   * `normalize_llm_mode`: `None` stays `None`; otherwise the mode is
   * stripped and lower-cased and must then be one of the modes.
   */
  function NormalizeLlmMode(mode: Option<string>): (r: Result<Option<string>, ModeError>)
    ensures mode.None? <==> r == Ok(None)
    ensures r.Ok? && r.value.Some? ==> r.value.value in Modes
    ensures mode.Some? ==> (r.Err? <==> Lower(Strip(mode.value)) !in Modes)
    ensures r.Err? ==> r.error == UnknownMode(mode.value)
  {
    match mode
    case None => Ok(None)
    case Some(m) =>
      var normalized := Lower(Strip(m));
      if normalized !in Modes then Err(UnknownMode(m)) else Ok(Some(normalized))
  }

  /**
   * The comparison ignores surrounding whitespace and the case of the
   * letters: any spelling of a mode, padded with whitespace, is accepted
   * and normalized to the mode itself.
   */
  lemma NormalizePadded(pre: string, word: string, post: string)
    requires AllSpace(pre) && AllSpace(post)
    requires Lower(word) in Modes
    ensures NormalizeLlmMode(Some(pre + word + post)) == Ok(Some(Lower(word)))
  {
    var w := Lower(word);
    assert w[0] in {'d', 'c'} && w[|w| - 1] in {'c', 'e'};
    LowerKeepsSpace(word);
    StripPadded(pre, word, post);
  }

  /** `" Creative "` is accepted as `"creative"`. */
  lemma NormalizeCreative()
    ensures NormalizeLlmMode(Some(" Creative ")) == Ok(Some(Creative))
  {
    assert " Creative " == " " + "Creative" + " ";
    assert Lower("Creative") == Creative;
    NormalizePadded(" ", "Creative", " ");
  }

  /** Normalizing a normalized mode returns it unchanged. */
  lemma NormalizeIdempotent(mode: Option<string>)
    requires NormalizeLlmMode(mode).Ok?
    ensures NormalizeLlmMode(NormalizeLlmMode(mode).value) == NormalizeLlmMode(mode)
  {
    if mode.Some? {
      var t := Strip(mode.value);
      StripSpec(mode.value);
      var n := Lower(t);
      LowerKeepsSpace(t);
      StripIdempotent(n);
      LowerIdempotent(t);
      assert Lower(Strip(n)) == n;
    }
  }
}
