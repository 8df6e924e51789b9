# Bazzi badge configurator and style store — a Dafny model

Bazzi is a view-counter badge service. Its front end has two pieces of real logic:

- **The badge configurator** (`components/glassmorphic-nav.tsx`). The user edits a form with a tracked URL, a label, a colour and a font size. An effect derives a result from it:
  - a canonical badge URL on the badge server;
  - an HTML `<img>` snippet and a Markdown image snippet;
  - a preview image URL.

  A second effect fetches the preview SVG whenever the image URL changes. It tracks the fetch in a four-field `ImageLoadState`. A toast notification fades in, shows its icon, fades out and clears itself on timers.
- **The style store** (`app/store/page.tsx`). It lists three badge styles and shows each price. For paid styles it shows a buy button. The button sends a signed-out visitor to GitHub sign-in and a signed-in visitor to the checkout page.

The model is functional. Records are immutable datatypes, and every handler and effect is a pure function. Timer firings and fetch completions are events.

| module | file | what it holds |
|---|---|---|
| `Wrappers` | wrappers.dfy | `Option` |
| `Text` | text.dfy | Decimal rendering of numbers (`toString`). First-occurrence search and removal (`String.replace` with a string pattern). |
| `Utf8` | utf8.dfy | UTF-8 encoding of strings, with a strict decoder as its inverse |
| `FormUrlEncoded` | form_urlencoded.dfy | The `application/x-www-form-urlencoded` serializer that `URLSearchParams.toString()` uses (WHATWG URL Standard, section 5.2), with a reference parser as its inverse |
| `BadgeForm` | badge_form.dfy | The form record and its three change handlers |
| `RequestDeriver` | request_deriver.dfy | The derivation effect: query pairs, the two URLs and the two snippets |
| `ImageLoad` | image_load.dfy | `ImageLoadState`: its transitions, its phase view and its render conditions |
| `Configurator` | configurator.dfy | The component as a whole, stepped by edits and by fetches settling, as written and corrected |
| `ToastLifecycle` | toast.dfy | The toast record, its three timer updaters and the pending timers |
| `Store` | store.dfy | The catalogue, price labels, buy-button visibility and the buy action |

Points where the code is easy to misread; the model follows the code:

- **Query parameters.** The configurator's query has exactly `url`, `label`, `color` and `fontSize` (components/glassmorphic-nav.tsx:107-112). The store's previews also send `styleType` (app/store/page.tsx:21), which the configurator never does.
- **`#` removal.** `color.replace("#", "")` at line 110 removes the first `#` wherever it is, not only a leading one (`RemoveFirst`).
- **Load-state reset.** The comment at line 127 says the load state is reset when the URL changes, but the effect runs on every form edit (see "Findings").
- **Stale responses.** The fetch effect (lines 145-187) does not compare a response with the current image URL. Whichever fetch settles last decides the load state (`LastSettledWins`).
- **Error state.** A non-ok status is thrown and caught with any fetch error (lines 160-181). Both set `error: true` with no SVG, and the status survives only in a log message.
- **Toast timers.** The hide effect's cleanup (lines 95-103) cancels only the hide timer. The icon timer and the clear timer are never cancelled (`StaleClearDropsNewerToast`).

## Model

| member | source | states |
|---|---|---|
| BadgeForm.HandleInputChange | components/glassmorphic-nav.tsx:189-195 | The field named by the input gets the typed text and every other field is unchanged. A font-size edit turns the number into the raw input text. |
| BadgeForm.HandleColorInputChange | components/glassmorphic-nav.tsx:205-211 | Only the colour changes, to the typed value |
| BadgeForm.HandleColorSelect | components/glassmorphic-nav.tsx:197-203 | Only the colour changes, to the chosen swatch, and the palette closes |
| BadgeForm.ColorHandlersAgree | components/glassmorphic-nav.tsx:197-211 | Both colour handlers leave the same form for the same value, the one the generic handler leaves under the name `color` |
| BadgeForm.InputChangesCompose | components/glassmorphic-nav.tsx:189-195 | Two edits of the same field equal the last one, and edits of different fields commute |
| BadgeForm.FontSizeText | components/glassmorphic-nav.tsx:111 | A numeric font size is sent as the numeral `toString` prints: no leading zero, a `-` only before a non-zero numeral, parsing back to the number. Once edited, the raw text is sent. |
| BadgeForm.InputChangeOfShownText | components/glassmorphic-nav.tsx:189-195 | Writing back the text a field shows changes nothing, except that a numeric font size becomes the same text |
| RequestDeriver.Derive | components/glassmorphic-nav.tsx:105-125 | The result is absent exactly when the tracked URL is empty. Otherwise the badge URL is always on `/api/badges` and the image URL is on the endpoint chosen by the preview flag, both on the same host with the same query. The query parses back to exactly the pairs url, label, color and fontSize. The snippets embed the badge URL and the raw label. |
| RequestDeriver.DerivedQuery | components/glassmorphic-nav.tsx:107-112 | The query has the keys url, label, color and fontSize in that order. The label falls back to "Views" when empty, the colour loses its first `#`, and the font size is its decimal text. |
| RequestDeriver.PreviewFlagMovesOnlyImage | components/glassmorphic-nav.tsx:114-125 | The preview flag does not affect the badge URL or the snippets. Without preview the image URL is the badge URL; with it they differ. |
| RequestDeriver.SameImageUrlIffSamePairs | components/glassmorphic-nav.tsx:107-115 | Two forms give the same image URL exactly when they give the same query pairs |
| RequestDeriver.EmptyLabelSnippets | components/glassmorphic-nav.tsx:109-118 | An empty label gives `alt=""` and `![]` while the query still says `label=Views` |
| RequestDeriver.LabelFallbackKeepsImageUrl | components/glassmorphic-nav.tsx:109-118 | Clearing a "Views" label keeps the image URL but changes the HTML snippet |
| RequestDeriver.GithubExampleQuery | components/glassmorphic-nav.tsx:65-112 | The initial form with url `https://github.com` gives the query `url=https%3A%2F%2Fgithub.com&label=Views&color=0d6efd&fontSize=12`. The URL's pieces (`https`, `:`, `/`, `github.com`, `%3A`, `%2F`) are parameters fixed by the preconditions. |
| RequestDeriver.SplitAtQuery | components/glassmorphic-nav.tsx:115-116 | The badge server's URLs split at their first `?` into the endpoint path and the serialized query |
| FormUrlEncoded.Encode | components/glassmorphic-nav.tsx:107-112 | Percent-encoding a value never shortens it, and decoding the result gives the value back |
| FormUrlEncoded.Serialize | components/glassmorphic-nav.tsx:107-112 | Serializing a non-empty list of name/value pairs gives non-empty text, and parsing the text gives the same pairs in the same order |
| FormUrlEncoded.EncodeAlphabet | components/glassmorphic-nav.tsx:107-112 | An encoded value uses only ASCII alphanumerics, `*-._`, `+` and `%` |
| FormUrlEncoded.EncodePlain | components/glassmorphic-nav.tsx:109-111 | Values made of alphanumerics and `*-._` are sent unchanged |
| FormUrlEncoded.EncodeEscaped | components/glassmorphic-nav.tsx:108 | Any other ASCII character except space becomes `%` and two upper-case hex digits |
| FormUrlEncoded.EncodeSpace | components/glassmorphic-nav.tsx:107-112 | A space is sent as `+`, on its own and anywhere inside a value |
| FormUrlEncoded.EncodeConcat | components/glassmorphic-nav.tsx:107-112 | Encoding distributes over concatenation |
| Utf8.Encode | components/glassmorphic-nav.tsx:107-112 | A string's UTF-8 bytes are at least as many as its characters and decode back to it. The decoder rejects overlong forms, surrogates and broken sequences. |
| Utf8.DecodeIsEncode | components/glassmorphic-nav.tsx:107-112 | Any bytes the decoder accepts are exactly the encoding of the string they decode to, so the encoder's round trip fixes the canonical bytes |
| Text.NatToDecimal | components/glassmorphic-nav.tsx:111 | A number's decimal text is non-empty, all digits, without a leading zero, and parses back to the number |
| Text.IntToDecimal | components/glassmorphic-nav.tsx:111 | A signed font size's text is an integer numeral without leading zeros. It starts with `-` exactly when the number is negative and parses back to the number. |
| Text.NumeralIsNatToDecimal | components/glassmorphic-nav.tsx:111 | Every numeral without leading zeros is the rendering of its own value, so the rendering is the only such numeral for a number |
| Text.IntNumeralIsIntToDecimal | components/glassmorphic-nav.tsx:111 | The same for signed numerals: each one parses and is the rendering of the number it parses to |
| Text.RemoveFirst | components/glassmorphic-nav.tsx:110 | Without a `#` the colour is unchanged. Otherwise exactly the first `#` is removed and the rest is kept in order. |
| ImageLoad.Settle | components/glassmorphic-nav.tsx:158-181 | An ok response (status 200 to 299) gives loaded with the body as is. Any other status or a thrown error gives error with no SVG. Either way the state is valid and not loading. |
| ImageLoad.Next | components/glassmorphic-nav.tsx:128-181 | Every transition gives a valid state: at most one flag, and SVG text exactly when loaded. Loading is set exactly by the derivation with a URL and by the fetch start, and both drop the SVG. An empty URL gives all-false with no SVG. A settled fetch gives the state its outcome determines. |
| ImageLoad.NextIgnoresPrevious | components/glassmorphic-nav.tsx:128-181 | Every event writes all four fields, so the state before never matters |
| ImageLoad.PhaseCorrespondence | components/glassmorphic-nav.tsx:28-33 | The valid flag records correspond one-to-one to the phases idle, loading, loaded(svg) and errored |
| ImageLoad.Display | components/glassmorphic-nav.tsx:322-340 | The spinner is shown exactly when loading and neither loaded nor errored, the error notice exactly when errored, and an SVG exactly when loaded with that non-empty text |
| ImageLoad.DisplayFollowsPhase | components/glassmorphic-nav.tsx:322-340 | The panel shows at most one thing: the spinner exactly when loading, the error notice exactly when errored, and the SVG exactly when loaded with non-empty text |
| Configurator.EditAsWritten | components/glassmorphic-nav.tsx:105-187 | An edit re-derives the result and resets the load state. A fetch is started only when the image URL changed. |
| Configurator.Edit | components/glassmorphic-nav.tsx:127-187 | Corrected edit: the load state is reset only when the image URL changes or the URL is emptied. Otherwise it is kept. |
| Configurator.Settle | components/glassmorphic-nav.tsx:158-181 | A settled fetch leaves the flight list and writes its outcome whatever URL it was for. Form, result and preview flag are unchanged. |
| Configurator.Step | components/glassmorphic-nav.tsx:127-187 | Corrected component step. The preview flag never changes, and an edit stores the form and its derivation. An emptied URL goes idle with the flights kept. A new image URL sets loading and appends a fetch for it. An edit that keeps the image URL keeps the load state and the flights. A settling fetch keeps form and result, writes its outcome and removes exactly its own entry. An index with no fetch changes nothing. |
| Configurator.StepAsWritten | components/glassmorphic-nav.tsx:105-187 | Component step as written. Every edit with a URL leaves the state loading, but a fetch is appended only when the image URL changed, and otherwise the flights are kept. Emptied URLs and settling fetches behave as in the corrected step. |
| Configurator.MountedInvariant | components/glassmorphic-nav.tsx:64-79 | The mount state (empty URL, no result, idle load state, no fetch) is consistent: the empty URL derives no result and the idle state is valid. It is also live, with no spinner waiting on a missing fetch. This is the base case of the step invariants. |
| Configurator.StepsKeepConsistent | components/glassmorphic-nav.tsx:105-187 | Every step keeps the result equal to the derivation of the form and the load state valid |
| Configurator.EmptyUrlIsIdle | components/glassmorphic-nav.tsx:106-141 | An empty URL gives no result and the idle load state, whatever the other fields and the state before |
| Configurator.StepKeepsLive | components/glassmorphic-nav.tsx:127-187 | With the corrected edit, a spinner always has a fetch in flight that can end it |
| Configurator.ClearedLabelLeavesSpinnerAsWritten | components/glassmorphic-nav.tsx:105-187 | As written, clearing a "Views" label after the preview loaded shows the spinner with no fetch in flight, and no settling fetch can change that |
| Configurator.ClearedLabelKeepsPreview | components/glassmorphic-nav.tsx:127 | With the corrected edit, the same edit keeps the loaded preview |
| Configurator.LastSettledWins | components/glassmorphic-nav.tsx:146-187 | Responses are not matched to requests. With a fetch for an older URL and one for the current URL in flight, the current one settling first and the older one last leaves the older outcome shown, no fetch in flight and the result unchanged. |
| Configurator.FailureIsNotRetried | components/glassmorphic-nav.tsx:174-182 | A failed fetch leaves error with no SVG and one fetch fewer in flight. Nothing is retried. |
| ToastLifecycle.Show | components/glassmorphic-nav.tsx:81-88 | A new toast is visible with its icon hidden, and carries the given id and message |
| ToastLifecycle.RevealIcon | components/glassmorphic-nav.tsx:90-92 | The icon updater shows the icon of a live toast and maps no toast to no toast |
| ToastLifecycle.Hide | components/glassmorphic-nav.tsx:97-98 | The hide updater clears `visible` and `showIcon`, keeps id and message, and maps no toast to no toast |
| ToastLifecycle.HideEffect | components/glassmorphic-nav.tsx:95-103 | After any change of the toast, exactly one hide timer is pending while a toast exists and none otherwise. The icon and clear timers are left as they were. |
| ToastLifecycle.Step | components/glassmorphic-nav.tsx:81-103 | Showing a toast adds an icon timer. A firing icon timer reveals the icon, a hide timer hides the toast and adds a clear timer, and a clear timer removes the toast. Each firing timer leaves the pending list, and firing a timer that is not pending changes nothing. |
| ToastLifecycle.StepKeepsOneHideTimer | components/glassmorphic-nav.tsx:81-103 | Every show and every timer firing keeps exactly one pending hide timer per live toast |
| ToastLifecycle.TimersNeverResurrect | components/glassmorphic-nav.tsx:90-99 | No timer brings back a cleared toast |
| ToastLifecycle.UndisturbedCycle | components/glassmorphic-nav.tsx:81-103 | Show, icon, fade and clear run in order and end with no toast and no timers |
| ToastLifecycle.StaleClearDropsNewerToast | components/glassmorphic-nav.tsx:81-103 | A clear timer from an earlier toast removes a newer toast while it is still visible |
| Store.PriceLabel | app/store/page.tsx:126-127 | A free style is labelled "Free". A paid one is labelled `$` followed by a numeral without leading zeros that parses back to the amount. |
| Store.PriceLabelInjective | app/store/page.tsx:126-127 | Different prices get different labels |
| Store.HandleBuyBadge | app/store/page.tsx:44-52 | Without a session the action is GitHub sign-in and nothing else. With one it is navigation to `/checkout?styleId=` followed by the id, unencoded. |
| Store.CheckoutDistinguishesStyles | app/store/page.tsx:48-50 | Different style ids lead to different checkout paths |
| Store.BuyButton | app/store/page.tsx:133-140 | A card has a buy button exactly when its style is not free, and the button performs the buy action for that style's id |
| Store.Catalogue | app/store/page.tsx:16-38 | The catalogue has three styles, `default`, `maple` and `rabbit` in that order, with distinct ids. Only `default` is free and the others cost 3 dollars. Each preview is the preview URL of the card's own id. |
| Store.BuyButtonsOnPaidCards | app/store/page.tsx:133-140 | Exactly the cards after the first, the paid ones, show a buy button, signed in or not |
| Store.PaidCardsCheckOut | app/store/page.tsx:44-140 | A signed-in visitor's button on the maple and rabbit cards goes to their checkout pages. A signed-out visitor is sent to sign-in, and the free card has no button. |
| Store.PreviewUrlSplits | app/store/page.tsx:21-35 | A style's preview URL is on the configurator's preview endpoint and host. Its query is the same for every style, except that `styleType` is the style's id. |

## Left out

- The network call: `fetch` and `response.text()` become an `Outcome` input, a response with status and body or a thrown error.
- Response bodies that cannot be read are not modelled; reading the body is taken to succeed.
- `copyToClipboard` and `navigator.clipboard` (components/glassmorphic-nav.tsx:52-61) are left out. They are fire-and-forget I/O that only logs.
- The `console` logging is left out.
- React scheduling is left out.
  - An edit runs the derivation effect and then the fetch effect to completion.
  - The synchronous first update of the async fetch (lines 150-156) happens at edit time.
  - Batching, Strict Mode double effects and unmounting are not modelled.
- Timer durations (200 ms, 2500 ms, 500 ms) are left out. Timers may fire in any order, which includes every real order.
- `Date.now()` toast ids are opaque integer parameters.
- `showToast` has no caller in the component. The lifecycle is modelled as if it were called.
- `setIsPreview` is never called, so the preview flag stays true in the component. It is kept as a parameter of the derivation.
- The `next-auth` session hook, `signIn` and the router become the `Action` value and a signed-in flag.
- JSX layout, CSS classes, animations, the colour-palette toggle button and the store's `onError` image hiding are left out. They are presentation only.
- Utf8.Encode: strings are Dafny `char` sequences, which cannot hold the lone surrogates a JavaScript string can. Lone surrogates are replaced by U+FFFD when the object passed to `URLSearchParams` is converted to USVString, before any encoding; that conversion is not modelled.
- BadgeForm.FontSizeText: the numeric font size is an integer. JavaScript's `toString` of fractional or exponent-notation numbers is not modelled; the number input only produces them as raw text, which the model sends unchanged.
- Store.PriceLabel: the price is a natural number. JavaScript's rendering of fractional or negative prices is not modelled, and the catalogue has neither.
- FormUrlEncoded.Parse: the parser accepts only the serializer's own output alphabet. It is a reference inverse, not a model of `URLSearchParams` parsing, which the code does not use.

## Findings

| source | as written | input that shows it | evidently intended | confidence | as-written member | corrected member |
|---|---|---|---|---|---|---|
| components/glassmorphic-nav.tsx:127-133 | The derivation effect runs on every form edit, because it is keyed on the form object. It sets `loading: true` every time. The fetch effect runs only when the image URL string changes. | With url `https://github.com` and label `Views`, wait for the preview to load, then clear the label. The query still says `label=Views`, so the image URL is unchanged. Clicking the colour swatch that is already selected has the same effect. The spinner is shown and no fetch is started to end it. | Reset the load state only when the image URL changes, as the comment on line 127 says. | medium, not executed | Configurator.ClearedLabelLeavesSpinnerAsWritten | Configurator.StepKeepsLive |
