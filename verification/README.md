# DetailBarang: item detail page of a donation listing

`DetailBarang` shows one donation post (a *barang*, "item") and lets a
signed-in visitor claim it. The page reads one row of the `posts` table. It
splits the row's description into text and an optional picture. A claim is a
conditional update that marks the row `taken` by the visitor only while its
status is still `available`. Which screen the page shows follows from its
state.

This project models those parts as pure Dafny functions over immutable data
and proves their properties:

- `Items`: the row (`Barang`: `id`, `title`, nullable `description`, `status`,
  nullable `taken_by`). It also has the consistency rule "taken exactly when a
  claimant is named".
- `Text`: ECMAScript `String.prototype.trim` and the line terminators that a
  regular-expression `.` refuses. `Trim` is checked against a reference
  definition: a white-space prefix, a trimmed middle and a white-space suffix.
- `Description`: `parseDescription` as a hand-written scanner for
  `\[IMAGE\](.*?)\[\/IMAGE\]`. It follows backtracking semantics: the leftmost
  start wins, the lazy `.*?` stops at the nearest `[/IMAGE]`, and it gives up
  at a line terminator. The scanner is proved equal to a declarative
  description of the match.
- `Store`: the table as a map keyed by `id`, assumed unique, and the
  compare-and-swap update. It also covers any sequence of such updates, which
  is how the store's atomic conditional writes are seen from outside.
- `Page`: the page state (`loading`, `barang`, `requesting`), the mount effect
  and `loadBarang`, and `handleAmbilBarang` split into its guards, its start
  and its reaction to the update's answer.
- `View`: the choice of screen and the parts of a description that are
  rendered.

## Behaviour worth knowing

- **A claim that matches nothing still looks successful.** The handler looks
  only at `error` (line 78). The conditional update reports no error when its
  filter matches no row. So on a stale page, a claim for a row someone else
  already took still turns the page into "taken by you", while the store
  keeps the other claimant. `Page.StaleClaimDiverges` proves this.
  `Page.AgreesWhenRowMatched` proves that page and store agree when the row
  did match.
- **Parsing is not idempotent.** Only the first span is removed (line 21), so
  a second span survives into the text and is found when that text is parsed
  again. Cutting a span out can also join the text around it into a new span.
  `Description.SecondSpanSurvives`, `Description.NotIdempotent` and
  `Description.SpanFormedByRemoval` prove this.
  `Description.ReparseStableIffNoSpan` gives the exact condition under which
  a re-parse changes nothing.

## Model

| member | source | states |
|---|---|---|
| `Text.Trim` | src/components/DetailBarang.tsx:21 | the result neither starts nor ends with white space and is no longer than the input |
| `Text.TrimIsCut` | src/components/DetailBarang.tsx:21 | `Trim` returns the input with a white-space prefix and a white-space suffix cut off |
| `Text.TrimUnique` | src/components/DetailBarang.tsx:21 | any split of a string into white space, a middle that is trimmed, and white space has `Trim` as its middle, so trimming is fully determined |
| `Text.TrimIdempotent` | src/components/DetailBarang.tsx:21 | trimming twice is the same as trimming once |
| `Description.FindClose` | src/components/DetailBarang.tsx:19 | the lazy `(.*?)` from a position returns the nearest `[/IMAGE]` reachable without crossing a line terminator, and returns nothing exactly when no `[/IMAGE]` is reachable that way |
| `Description.FindSpan` | src/components/DetailBarang.tsx:19 | the returned span is a match, and no earlier start position matches; no result means no start position matches |
| `Description.ParseDescription` | src/components/DetailBarang.tsx:18-23 | the returned text never starts or ends with white space |
| `Description.ParseWithoutSpan` | src/components/DetailBarang.tsx:19-22 | the image is absent exactly when the pattern matches nowhere in the description, and then the text is the whole description trimmed |
| `Description.ParseCapture` | src/components/DetailBarang.tsx:19-20 | a returned image URL is capturable: it holds no line terminator and no `[/IMAGE]` |
| `Description.ScannerFindsFirstSpan` | src/components/DetailBarang.tsx:19 | the scanner reports exactly the leftmost match of the pattern |
| `Description.ParseFollowsFirstSpan` | src/components/DetailBarang.tsx:19-21 | for the leftmost match, the image is the text between its delimiters, and the text is the prefix before the span joined with the suffix after it, trimmed |
| `Description.CaptureFacts` | src/components/DetailBarang.tsx:19-20 | the text between the delimiters of any match holds neither a line terminator nor `[/IMAGE]` |
| `Description.ReparseStableIffNoSpan` | src/components/DetailBarang.tsx:18-23 | re-parsing the produced text gives the same text and no image exactly when that text holds no span |
| `Description.LoneSpan` | src/components/DetailBarang.tsx:19-22 | a description that is one span and nothing else parses to empty text and that URL, for every capturable URL (one line, no `[/IMAGE]`; a `[` as in `http://[::1]/a.png` is allowed), including the empty URL of `[IMAGE][/IMAGE]`; with `ParseCapture` this covers exactly the URLs a parse can return |
| `Description.SecondSpanSurvives` | src/components/DetailBarang.tsx:21 | only the first span is removed: after a span with a capturable URL and a blank, a second span stays in the text unchanged |
| `Description.NotIdempotent` | src/components/DetailBarang.tsx:21 | parsing the text of a two-span description again yields an image, so parsing is not idempotent |
| `Description.SpanFormedByRemoval` | src/components/DetailBarang.tsx:21 | cutting the first span out of `[IMA[IMAGE]x[/IMAGE]GE]y[/IMAGE]` leaves the text `[IMAGE]y[/IMAGE]`, and when `y` is capturable the next parse yields `y` as the image |
| `Description.LineBreakBlocksSpan` | src/components/DetailBarang.tsx:19-22 | a line break between `[IMAGE]` and `[/IMAGE]` prevents the match: no image, and the text is the whole description trimmed |
| `Store.ClaimUpdate` | src/components/DetailBarang.tsx:69-76 | the update changes at most the row with that `id`, and only if it is available; that row becomes taken by the user with its other fields kept; one row matches exactly when that row exists and is available, otherwise nothing changes |
| `Store.ClaimUpdatePreserves` | src/components/DetailBarang.tsx:71-76 | one update keeps every row under its own id and keeps "taken exactly when `taken_by` is set", because both fields are written together |
| `Store.RunPreserves` | src/components/DetailBarang.tsx:69-76 | any sequence of updates adds or removes no row and keeps the table keyed and consistent |
| `Store.TakenIsFinal` | src/components/DetailBarang.tsx:76 | once a row is taken, no sequence of claims changes it or matches it, so it never becomes available again |
| `Store.FirstClaimWins` | src/components/DetailBarang.tsx:69-76 | for an available row, the first request for it sets `taken_by` to that request's user, and exactly one request for it matches |
| `Store.AtMostOneWinner` | src/components/DetailBarang.tsx:69-76 | at most one claim for a row matches, and one matches exactly when the row exists, is available, and is claimed at all |
| `Store.RacingClaims` | src/components/DetailBarang.tsx:69-76 | of two racing claims on an available row, the first wins it and the second matches nothing |
| `Store.MissingRowNeverWins` | src/components/DetailBarang.tsx:75 | a claim for an id that is not in the table matches nothing and creates no row |
| `Page.Mount` | src/components/DetailBarang.tsx:34-37 | with no route id, or an empty one, nothing is fetched and the page stays in its initial loading state; otherwise it shows the fetched row or nothing |
| `Page.HandleClaim` | src/components/DetailBarang.tsx:58-92 | without a row the handler does nothing; without a user it writes nothing and sends the visitor to `/login`; on error the page row and the table are unchanged; without error the page row is marked taken by the user whatever the update matched, the table is the result of the conditional update, and the outcome carries the number of rows it matched; `requesting` is off again on every path that passed the guards |
| `Page.AgreesWhenRowMatched` | src/components/DetailBarang.tsx:69-91 | when the page showed the stored row, the update matches exactly when the row was available, and after a match the page shows what the store holds |
| `Page.StaleClaimDiverges` | src/components/DetailBarang.tsx:69-91 | on a stale page, a claim on a row already taken by another user matches zero rows and reports no error; the page then shows the claimant and the store keeps the other user |
| `View.SelectView` | src/components/DetailBarang.tsx:94-162 | the screens are tried in order. Loading comes first. Then a missing row means not found. A taken row shows "claimed by you" exactly when the signed-in user is its claimant, and otherwise "claimed by someone else". An available row shows the claim button, disabled exactly while a claim is in flight. A missing user is never the claimant |
| `View.DescriptionContent` | src/components/DetailBarang.tsx:134-142 | a null or empty description shows nothing; a paragraph is shown exactly when the parsed text is non-empty and then shows that text, and a picture exactly when the parsed image is a non-empty URL and then shows that URL |
| `View.ContentOfFirstSpan` | src/components/DetailBarang.tsx:134-142 | for the leftmost match of the pattern, the picture is the URL between its delimiters unless that is empty, and the paragraph is the description around the match, trimmed, unless that is empty |
| `View.ContentWithoutSpan` | src/components/DetailBarang.tsx:134-142 | a description the pattern does not match shows no picture, and shows the whole description, trimmed, as its paragraph unless that is empty |
| `View.EmptySpanShowsNothing` | src/components/DetailBarang.tsx:134-142 | a description that is only `[IMAGE][/IMAGE]` renders neither a paragraph nor a picture |
| `View.EnabledOnlyWhenIdle` | src/components/DetailBarang.tsx:155-160 | the claim button is enabled exactly when the page is loaded, no claim is in flight, and the row is available |
| `View.ClaimThenView` | src/components/DetailBarang.tsx:144-162 | while a claim is in flight the button is disabled; afterwards the page shows "claimed by you" when there was no error, and the enabled button again on error |
| `View.MissingRowNotFound` | src/components/DetailBarang.tsx:102-115 | for any visitor, signed in or not, an id that is absent from the table, or whose fetch fails, leads to the not-found screen |
| `View.NoRouteIdKeepsLoading` | src/components/DetailBarang.tsx:34-37 | without a usable route id the page never leaves the loading screen |
| `View.ViewOfConsistentRow` | src/components/DetailBarang.tsx:117-153 | for a consistent row, "claimed by you" is shown exactly when `taken_by` is the signed-in user, and "claimed by someone else" exactly when another user, or no user, is set |

## Left out

- JSX, styling and the `Navbar`, `Footer`, `Button`, `Link` and icon components: these are presentation only. The model keeps only which screen is chosen and which description parts are shown.
- React hooks: the state fields are explicit, and each handler is a function from old state to new state. The intermediate `loading = true` while a reload is in flight is not modelled: the mount starts loading anyway.
- The data-store client, the network and `console.error`: the table is a map and the transport outcome is a boolean parameter. A failed update is assumed to have written nothing. A write that was applied but whose answer was lost is not modelled.
- Concurrency: the store's atomic conditional writes are modelled as updates applied one after another. No interleaving inside a single update is modelled.
- `useAuth`, `alert` and `navigate`: the user is an optional id parameter. The alert and the move to `/login` appear only as the outcomes `SentToLogin` and `Rejected`.
- The closure in `handleAmbilBarang` keeps the row it captured at the start. A reload that finishes while a claim is in flight is not modelled, so the captured row is the displayed one.
- Regular expressions in general: only this one pattern is scanned. Characters are Unicode scalar values, while JavaScript strings are UTF-16 code units. Every character the pattern and `trim` inspect lies in the Basic Multilingual Plane, so the two agree except for unpaired surrogates, which Dafny strings cannot hold.
- `Text.IsWhitespace`: lists the ECMAScript WhiteSpace and LineTerminator characters with the space separators of current Unicode. A different Unicode version could add or remove a space separator.
- `Store`: `id` is assumed to be unique in `posts`, so the table is a map from `id` to one row. The schema is not part of this model. The code only suggests uniqueness, through `.single()` at line 46. `Store.AtMostOneWinner` and `Store.FirstClaimWins` rely on this assumption.
