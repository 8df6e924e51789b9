/** The preview image's load state (`ImageLoadState` in
    components/glassmorphic-nav.tsx): three flags and the fetched SVG text,
    driven by the derivation effect and by the outcome of the SVG fetch. */
module ImageLoad {
  import opened Wrappers

  datatype LoadState = LoadState(loading: bool, error: bool, loaded: bool, svgContent: Option<string>)

  const Idle := LoadState(false, false, false, None)
  const Loading := LoadState(true, false, false, None)

  /** At most one flag is set, and SVG text is held exactly when loaded. */
  predicate Valid(s: LoadState) {
    && (s.loading ==> !s.error && !s.loaded)
    && (s.error ==> !s.loaded)
    && (s.svgContent.Some? <==> s.loaded)
  }

  /** What the SVG fetch produced: a response with its status and body, or
      a thrown error (network failure, aborted request). */
  datatype Outcome = Response(status: int, body: string) | NetworkError

  /** `response.ok`: the status is in the range 200 to 299. */
  predicate IsOk(status: int) {
    200 <= status <= 299
  }

  /** The events that drive the state. */
  datatype Event =
    | DeriveWithUrl          // the derivation effect with a non-empty tracked URL
    | DeriveWithoutUrl       // the derivation effect with an empty tracked URL
    | FetchStart             // the fetch effect, before it awaits the response
    | FetchSettled(outcome: Outcome)

  /** The state a settled fetch leaves: loaded with the body as is for an ok
      response, otherwise an error with no SVG text. */
  function Settle(o: Outcome): (s: LoadState)
    ensures Valid(s) && !s.loading
    ensures s.loaded <==> o.Response? && IsOk(o.status)
    ensures s.loaded ==> s.svgContent == Some(o.body)
    ensures s.error <==> !s.loaded
  {
    match o
    case Response(status, body) =>
      if IsOk(status) then LoadState(false, false, true, Some(body))
      else LoadState(false, true, false, None)
    case NetworkError => LoadState(false, true, false, None)
  }

  /** One transition. Every event writes all four fields, so the result
      never depends on the state before it and is always valid. */
  function Next(s: LoadState, e: Event): (r: LoadState)
    ensures Valid(r)
    ensures r.loading <==> e == DeriveWithUrl || e == FetchStart
    ensures e == DeriveWithoutUrl ==> !r.loading && !r.error && !r.loaded && r.svgContent.None?
    ensures e == DeriveWithUrl || e == FetchStart ==> r.svgContent.None?
    ensures e.FetchSettled? ==> r == Settle(e.outcome)
  {
    match e
    case DeriveWithUrl => Loading
    case DeriveWithoutUrl => Idle
    case FetchStart => s.(loading := true, error := false, loaded := false, svgContent := None)
    case FetchSettled(o) => Settle(o)
  }

  /** No event reads the state it replaces. */
  lemma NextIgnoresPrevious(s: LoadState, t: LoadState, e: Event)
    ensures Next(s, e) == Next(t, e)
  {
  }

  /** The one-of-four view of the state. */
  datatype Phase = IdlePhase | LoadingPhase | LoadedPhase(content: string) | ErroredPhase

  function ToPhase(s: LoadState): Phase
    requires Valid(s)
  {
    if s.loading then LoadingPhase
    else if s.error then ErroredPhase
    else if s.loaded then LoadedPhase(s.svgContent.value)
    else IdlePhase
  }

  function FromPhase(p: Phase): (s: LoadState)
    ensures Valid(s)
  {
    match p
    case IdlePhase => Idle
    case LoadingPhase => Loading
    case LoadedPhase(c) => LoadState(false, false, true, Some(c))
    case ErroredPhase => LoadState(false, true, false, None)
  }

  /** The valid states are exactly the four phases: the flags record is an
      encoding of the sum type, in both directions. */
  lemma PhaseCorrespondence(s: LoadState, p: Phase)
    ensures Valid(s) ==> FromPhase(ToPhase(s)) == s
    ensures ToPhase(FromPhase(p)) == p
  {
  }

  /** What the result panel shows for a state. */
  datatype Shown = Spinner | ErrorNotice | Svg(markup: string)

  /** The render conditions: the spinner needs loading without loaded or
      error; the SVG needs loaded and non-empty text. */
  function Display(s: LoadState): (shown: seq<Shown>)
    ensures Spinner in shown <==> s.loading && !s.loaded && !s.error
    ensures ErrorNotice in shown <==> s.error
    ensures forall m :: Svg(m) in shown <==> s.loaded && s.svgContent == Some(m) && m != ""
  {
    (if s.loading && !s.loaded && !s.error then [Spinner] else [])
    + (if s.error then [ErrorNotice] else [])
    + (if s.loaded && s.svgContent.Some? && s.svgContent.value != "" then [Svg(s.svgContent.value)] else [])
  }

  /** In a valid state the panel shows at most one thing, and which one
      follows the phase; an empty SVG body shows nothing. */
  lemma DisplayFollowsPhase(s: LoadState)
    requires Valid(s)
    ensures |Display(s)| <= 1
    ensures ToPhase(s) == LoadingPhase <==> Display(s) == [Spinner]
    ensures ToPhase(s) == ErroredPhase <==> Display(s) == [ErrorNotice]
    ensures ToPhase(s).LoadedPhase? && ToPhase(s).content != "" <==> Display(s) == [Svg(s.svgContent.GetOr(""))]
    ensures Display(s) == [] <==> ToPhase(s) == IdlePhase || ToPhase(s) == LoadedPhase("")
  {
    var none: seq<Shown> := [];
    if s.loading {
      assert Display(s) == [Spinner] + none + none;
      assert Display(s)[0] == Spinner;
    } else if s.error {
      assert Display(s) == none + [ErrorNotice] + none;
      assert Display(s)[0] == ErrorNotice;
    } else if s.loaded && s.svgContent.value != "" {
      assert Display(s) == none + none + [Svg(s.svgContent.value)];
      assert Display(s)[0].Svg?;
    } else {
      assert Display(s) == none + none + none;
    }
  }
}
