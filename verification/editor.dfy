/** The AI edit panel (`components/AIImageEditor.tsx`): the `handleEdit`
    handler as a transition of the panel's three pieces of state, driven by
    the outcome of the awaited `editImage` call. */
module Editor {
  import opened Wrappers
  import opened Text
  import Gemini

  datatype PanelState = PanelState(prompt: string, processing: bool, error: string)

  /** What awaiting `gemini.editImage` can give the handler: a value (possibly
      the empty string, which is falsy), `undefined`, or a rejection. */
  datatype EditOutcome = Image(value: string) | NoImage | Threw

  const FailedMessage: string := "Failed to edit image. Try a different prompt."
  const ErrorMessage: string := "An error occurred. Please try again."

  /** The panel state after the handler, and the images passed to
      `onImageChange`, in call order. */
  datatype Handled = Handled(state: PanelState, changed: seq<string>)

  /** A prompt that is empty once trimmed does nothing. */
  predicate Blank(prompt: string) {
    Trim(prompt) == ""
  }

  /** The synchronous part of the handler, before the await: `None` when it
      returns early. */
  function BeginEdit(st: PanelState): (r: Option<PanelState>)
    ensures r.None? <==> AllSpace(st.prompt)
    ensures r.Some? ==> r.value.processing && r.value.error == "" && r.value.prompt == st.prompt
  {
    TrimEmptyIffBlank(st.prompt);
    if Blank(st.prompt) then None
    else Some(st.(processing := true, error := ""))
  }

  /** What the `onImageChange` prop does when the handler calls it inside its
      `try`: return normally, or throw. */
  datatype Callback = Returns | Throws

  /** A settled call the handler treats as a success: a truthy string. */
  predicate Success(outcome: EditOutcome) {
    outcome.Image? && outcome.value != ""
  }

  /** The rest of the handler, once the call has settled. A throwing callback
      skips `setPrompt('')` and lands in the `catch`; `finally` clears the
      processing flag on every path. */
  function FinishEdit(st: PanelState, outcome: EditOutcome, cb: Callback): (h: Handled)
    ensures !h.state.processing
    ensures h.changed != [] <==> Success(outcome)
    ensures h.state.error == "" <==> Success(outcome) && cb.Returns? && st.error == ""
  {
    var h :=
      match outcome
      case Image(v) =>
        if v != "" then
          if cb.Throws? then Handled(st.(error := ErrorMessage), [v])
          else Handled(st.(prompt := ""), [v])
        else Handled(st.(error := FailedMessage), [])
      case NoImage => Handled(st.(error := FailedMessage), [])
      case Threw => Handled(st.(error := ErrorMessage), []);
    h.(state := h.state.(processing := false))
  }

  function HandleEdit(st: PanelState, outcome: EditOutcome, cb: Callback): (h: Handled)
    ensures AllSpace(st.prompt) ==> h == Handled(st, [])
    ensures !AllSpace(st.prompt) ==> !h.state.processing
    ensures !AllSpace(st.prompt) && Success(outcome) ==> h.changed == [outcome.value]
    ensures !AllSpace(st.prompt) && Success(outcome) && cb.Returns? ==>
      h.state.prompt == "" && h.state.error == ""
    ensures !AllSpace(st.prompt) && Success(outcome) && cb.Throws? ==>
      h.state.prompt == st.prompt && h.state.error == ErrorMessage
    ensures !AllSpace(st.prompt) && !Success(outcome) ==>
      && h.changed == []
      && h.state.prompt == st.prompt
      && h.state.error == (if outcome.Threw? then ErrorMessage else FailedMessage)
  {
    match BeginEdit(st)
    case None => Handled(st, [])
    case Some(busy) => FinishEdit(busy, outcome, cb)
  }

  /** The callback fires at most once, and only with a value the handler saw. */
  lemma AtMostOneChange(st: PanelState, outcome: EditOutcome, cb: Callback)
    ensures |HandleEdit(st, outcome, cb).changed| <= 1
    ensures |HandleEdit(st, outcome, cb).changed| == 1 ==>
      outcome.Image? && HandleEdit(st, outcome, cb).changed[0] == outcome.value
  {
  }

  /** How the service's result reaches the handler: a string or `undefined`. */
  function OutcomeOf(r: Option<string>): EditOutcome {
    match r
    case Some(v) => Image(v)
    case None => NoImage
  }

  /** Wired to the real service client, which swallows every failure, the
      generic error appears exactly when an image came back and the callback
      threw. A success always hands a PNG data URL to `onImageChange`, and
      clears the prompt unless the callback threw; a failure shows the
      "Failed to edit" message. */
  lemma WiredHandler(st: PanelState, initialImage: string, service: Gemini.EditRequest -> Gemini.Outcome, cb: Callback)
    requires !AllSpace(st.prompt)
    ensures
      var r := Gemini.EditImage(initialImage, st.prompt, service);
      var h := HandleEdit(st, OutcomeOf(r), cb);
      && (h.state.error == ErrorMessage <==> r.Some? && cb.Throws?)
      && !h.state.processing
      && (r.Some? ==>
            h.changed == [r.value]
            && r.value[..|Gemini.ImagePrefix|] == Gemini.ImagePrefix
            && (cb.Returns? ==> h.state.prompt == ""))
      && (r.None? ==> h.changed == [] && h.state.error == FailedMessage)
  {
    var r := Gemini.EditImage(initialImage, st.prompt, service);
    Gemini.FailClosed(initialImage, st.prompt, service, _ => Gemini.Threw);
    assert |FailedMessage| != |ErrorMessage|;
    if r.Some? {
      assert |r.value| >= |Gemini.ImagePrefix| > 0;
    }
  }
}
