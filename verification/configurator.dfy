/** The configurator component as a whole: the form, the derived result,
    the image load state and the SVG fetches still in flight, stepped by
    form edits and by fetches settling. An edit runs the derivation effect
    (keyed on the form) and then the fetch effect (keyed on the image URL)
    to completion. */
module Configurator {
  import opened Wrappers
  import opened BadgeForm
  import opened RequestDeriver
  import opened ImageLoad

  datatype Component = Component(
    form: BadgeForm,
    isPreview: bool,
    result: Option<ResultData>,
    load: LoadState,
    inFlight: seq<string>)   // image URLs of fetches not yet settled, oldest first

  /** The component after mounting: empty tracked URL, no result, idle. */
  const Mounted := Component(Initial, true, None, Idle, [])

  datatype Event = Edited(form: BadgeForm) | Settled(index: nat, outcome: Outcome)

  /** The value the fetch effect's dependency list compares. */
  function ImageUrlOf(r: Option<ResultData>): Option<string> {
    match r
    case None => None
    case Some(d) => Some(d.imageUrl)
  }

  /** Image URLs are never empty, so the fetch effect's truthiness test is
      the same as the result being present. */
  lemma ImageUrlNonEmpty(f: BadgeForm, isPreview: bool)
    requires f.url != ""
    ensures Derive(f, isPreview).value.imageUrl != ""
  {
  }

  /** Whether the fetch effect runs after the derivation produced `result`. */
  predicate FetchEffectRuns(c: Component, result: Option<ResultData>) {
    result.Some? && ImageUrlOf(result) != ImageUrlOf(c.result)
  }

  /** An edit as the code handles it: the derivation effect always resets
      the load state, and the fetch effect starts a fetch only when the
      image URL changed. */
  function EditAsWritten(c: Component, f: BadgeForm): (r: Component)
    ensures r.form == f && r.isPreview == c.isPreview
    ensures r.result == Derive(f, c.isPreview)
    ensures r.result.None? ==> r.load == Idle && r.inFlight == c.inFlight
    ensures r.result.Some? ==> r.load == Loading
    ensures FetchEffectRuns(c, r.result) ==> r.inFlight == c.inFlight + [r.result.value.imageUrl]
    ensures !FetchEffectRuns(c, r.result) ==> r.inFlight == c.inFlight
  {
    var result := Derive(f, c.isPreview);
    var load := Next(c.load, if result.Some? then DeriveWithUrl else DeriveWithoutUrl);
    if FetchEffectRuns(c, result) then
      Component(f, c.isPreview, result, Next(load, FetchStart), c.inFlight + [result.value.imageUrl])
    else
      Component(f, c.isPreview, result, load, c.inFlight)
  }

  /** An edit as the code's own comment describes it: the load state is
      reset only when the image URL changes (or the URL is emptied), so an
      edit that keeps the image URL keeps the current load state. */
  function Edit(c: Component, f: BadgeForm): (r: Component)
    ensures r.form == f && r.isPreview == c.isPreview
    ensures r.result == Derive(f, c.isPreview)
    ensures r.result.None? ==> r.load == Idle && r.inFlight == c.inFlight
    ensures FetchEffectRuns(c, r.result) ==>
      r.load == Loading && r.inFlight == c.inFlight + [r.result.value.imageUrl]
    ensures r.result.Some? && !FetchEffectRuns(c, r.result) ==> r.load == c.load && r.inFlight == c.inFlight
  {
    var result := Derive(f, c.isPreview);
    if result.Some? && !FetchEffectRuns(c, result) then
      c.(form := f, result := result)
    else
      EditAsWritten(c, f)
  }

  /** The fetch at `i` settles and its outcome is written, whatever URL it
      was for: there is no check against the current image URL, and no retry. */
  function Settle(c: Component, i: nat, o: Outcome): (r: Component)
    ensures i < |c.inFlight| ==> r.load == ImageLoad.Settle(o) && |r.inFlight| == |c.inFlight| - 1
    ensures i < |c.inFlight| ==> r.inFlight == c.inFlight[..i] + c.inFlight[i + 1..]
    ensures i >= |c.inFlight| ==> r == c
    ensures r.form == c.form && r.result == c.result && r.isPreview == c.isPreview
  {
    if i < |c.inFlight| then
      c.(load := Next(c.load, FetchSettled(o)), inFlight := c.inFlight[..i] + c.inFlight[i + 1..])
    else c
  }

  /** One event with the corrected edit. An edit replaces the form and
      re-derives the result: an emptied URL goes idle, a new image URL sets
      loading and puts a fetch for it in flight, and an edit that keeps the
      image URL keeps the load state and the flights. A settling fetch
      touches only the load state and removes its own entry from the flight
      list; an index with no fetch changes nothing. */
  function Step(c: Component, e: Event): (r: Component)
    ensures r.isPreview == c.isPreview
    ensures e.Edited? ==> r.form == e.form && r.result == Derive(e.form, c.isPreview)
    ensures e.Edited? && r.result.None? ==> r.load == Idle && r.inFlight == c.inFlight
    ensures e.Edited? && FetchEffectRuns(c, r.result) ==>
      r.load == Loading && r.inFlight == c.inFlight + [r.result.value.imageUrl]
    ensures e.Edited? && r.result.Some? && !FetchEffectRuns(c, r.result) ==>
      r.load == c.load && r.inFlight == c.inFlight
    ensures e.Settled? ==> r.form == c.form && r.result == c.result
    ensures e.Settled? && e.index < |c.inFlight| ==>
      r.load == ImageLoad.Settle(e.outcome) && |r.inFlight| == |c.inFlight| - 1
    ensures e.Settled? && e.index < |c.inFlight| ==>
      r.inFlight == c.inFlight[..e.index] + c.inFlight[e.index + 1..]
    ensures e.Settled? && e.index >= |c.inFlight| ==> r == c
  {
    match e
    case Edited(f) => Edit(c, f)
    case Settled(i, o) => Settle(c, i, o)
  }

  /** One event as the code handles it: the same, except that every edit
      with a non-empty URL leaves the load state loading, while a fetch is
      started only when the image URL changed. */
  function StepAsWritten(c: Component, e: Event): (r: Component)
    ensures r.isPreview == c.isPreview
    ensures e.Edited? ==> r.form == e.form && r.result == Derive(e.form, c.isPreview)
    ensures e.Edited? && r.result.None? ==> r.load == Idle && r.inFlight == c.inFlight
    ensures e.Edited? && r.result.Some? ==> r.load == Loading
    ensures e.Edited? && FetchEffectRuns(c, r.result) ==> r.inFlight == c.inFlight + [r.result.value.imageUrl]
    ensures e.Edited? && !FetchEffectRuns(c, r.result) ==> r.inFlight == c.inFlight
    ensures e.Settled? ==> r.form == c.form && r.result == c.result
    ensures e.Settled? && e.index < |c.inFlight| ==>
      r.load == ImageLoad.Settle(e.outcome) && |r.inFlight| == |c.inFlight| - 1
    ensures e.Settled? && e.index < |c.inFlight| ==>
      r.inFlight == c.inFlight[..e.index] + c.inFlight[e.index + 1..]
    ensures e.Settled? && e.index >= |c.inFlight| ==> r == c
  {
    match e
    case Edited(f) => EditAsWritten(c, f)
    case Settled(i, o) => Settle(c, i, o)
  }

  /** The result is the derivation of the current form and the load state is valid. */
  predicate Consistent(c: Component) {
    c.result == Derive(c.form, c.isPreview) && Valid(c.load)
  }

  /** A spinner is only shown while some fetch can still end it. */
  predicate Live(c: Component) {
    c.load.loading ==> |c.inFlight| > 0
  }

  /** The component mounts consistent and live: the base case of the step
      invariants below. */
  lemma MountedInvariant()
    ensures Consistent(Mounted) && Live(Mounted)
  {
  }

  /** Both the code's step and the corrected step keep the result derived
      from the form and the load state valid. */
  lemma StepsKeepConsistent(c: Component, e: Event)
    requires Consistent(c)
    ensures Consistent(Step(c, e))
    ensures Consistent(StepAsWritten(c, e))
  {
  }

  /** The corrected step never leaves a spinner that nothing can end. */
  lemma StepKeepsLive(c: Component, e: Event)
    requires Live(c)
    ensures Live(Step(c, e))
  {
  }

  /** The correction changes nothing when the image URL changes or the
      tracked URL is empty. */
  lemma StepAgreesWhenUrlChanges(c: Component, f: BadgeForm)
    requires Derive(f, c.isPreview).None? || FetchEffectRuns(c, Derive(f, c.isPreview))
    ensures Edit(c, f) == EditAsWritten(c, f)
  {
  }

  /** An empty tracked URL gives no result and an idle load state, whatever
      the other fields and the state before. */
  lemma EmptyUrlIsIdle(c: Component, f: BadgeForm)
    requires f.url == ""
    ensures Edit(c, f).result.None? && Edit(c, f).load == Idle
    ensures EditAsWritten(c, f).result.None? && EditAsWritten(c, f).load == Idle
  {
  }

  /** The code as written: when a preview has loaded and no fetch is in
      flight, clearing a "Views" label keeps the image URL (the query falls
      back to label=Views), so the fetch effect does not run, but the
      derivation effect has already set loading. The spinner stays, and no
      settling fetch can end it. */
  lemma ClearedLabelLeavesSpinnerAsWritten(c: Component)
    requires Consistent(c) && c.form.url != "" && c.form.labelText == "Views"
    requires c.load.loaded && c.inFlight == []
    ensures Live(c)
    ensures var c' := StepAsWritten(c, Edited(c.form.(labelText := "")));
      && c'.load.loading && c'.inFlight == []
      && !Live(c')
      && Display(c'.load) == [Spinner]
      && forall i: nat, o: Outcome :: StepAsWritten(c', Settled(i, o)) == c'
  {
    var f := c.form.(labelText := "");
    LabelFallbackKeepsImageUrl(c.form, c.isPreview);
    assert !FetchEffectRuns(c, Derive(f, c.isPreview));
    var c' := StepAsWritten(c, Edited(f));
    assert c'.load == Loading && c'.inFlight == [];
    DisplayFollowsPhase(Loading);
  }

  /** The corrected step on the same edit keeps the loaded preview. */
  lemma ClearedLabelKeepsPreview(c: Component)
    requires Consistent(c) && c.form.url != "" && c.form.labelText == "Views"
    ensures Step(c, Edited(c.form.(labelText := ""))).load == c.load
  {
    LabelFallbackKeepsImageUrl(c.form, c.isPreview);
  }

  /** Responses are not matched to requests: with a fetch for an older
      image URL and one for the current URL in flight, if the current one
      settles first and the older one last, the older outcome is what the
      panel is left with, although the result still names the current URL. */
  lemma LastSettledWins(c: Component, older: Outcome, newer: Outcome)
    requires c.result.Some? && |c.inFlight| == 2
    requires c.inFlight[1] == c.result.value.imageUrl && c.inFlight[0] != c.inFlight[1]
    ensures var c1 := Step(c, Settled(1, newer));
      && c1.load == ImageLoad.Settle(newer)
      && var c2 := Step(c1, Settled(0, older));
      && c2.load == ImageLoad.Settle(older)
      && c2.inFlight == []
      && c2.result == c.result
  {
    var c1 := Step(c, Settled(1, newer));
    assert c1.inFlight == [c.inFlight[0]];
  }

  /** A failed fetch is not retried: it leaves the error state and one fetch
      fewer in flight. */
  lemma FailureIsNotRetried(c: Component, i: nat, o: Outcome)
    requires i < |c.inFlight|
    requires o.NetworkError? || !IsOk(o.status)
    ensures var r := Step(c, Settled(i, o));
      r.load.error && r.load.svgContent.None? && |r.inFlight| == |c.inFlight| - 1
  {
  }
}
