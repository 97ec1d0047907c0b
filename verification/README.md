# HomeScreen feed screen — verified model

A Dafny model of the logic inside the React Native `HomeScreen` component
(`HomeScreen.tsx`): the `Timer` sub-component's `formatTime` conversion from
elapsed seconds to an `MM:SS` text and its once-a-second tick, and the
screen's view state (`data`, `correctAnswer`, `loading`, `error`) with the
updates made by `fetchData` and `revealAnswer` and the "correct choice"
highlight computed in `renderItem`.

The HTTP requests are replaced by their settled outcome (`Feed.Outcome`:
the decoded body, or a thrown error), supplied as a parameter. Each handler
step is atomic. `Session` takes any sequence of such steps, in any order the
responses might arrive, and characterises every field of the resulting state
directly from the events.

Modules:

- `Options` (options.dfy): `Option`, standing for `null` / `undefined`.
- `Decimal` (decimal.dfy): `Number.prototype.toString()` on naturals,
  `String.prototype.padStart` with a one-character filler, and the value of
  a digit string.
- `Timer` (timer.dfy): `formatTime`, reading a display text back, and the tick.
- `Feed` (feed.dfy): the item and state records, the transitions, and the highlight.
- `Session` (session.dfy): event sequences and their invariants.

## Model

| member | source | states |
|---|---|---|
| Decimal.ToDecimal | HomeScreen.tsx:32 | `toString` of a natural is a non-empty digit string with no leading zero unless the number is 0 |
| Decimal.ValueOfToDecimal | HomeScreen.tsx:32 | reading the decimal text of `n` back gives `n` |
| Decimal.ToDecimalOfValue | HomeScreen.tsx:32 | every canonical digit string is the decimal text of its value, so `toString` is a bijection onto canonical strings |
| Decimal.DecimalLength | HomeScreen.tsx:32 | the decimal text of `n` has at most `k` digits exactly when `n < 10^k` |
| Decimal.PadStart | HomeScreen.tsx:32 | `padStart(width, fill)` prepends `fill` up to `width` characters, keeps the original text as the suffix and never truncates |
| Decimal.PadStartKeepsValue | HomeScreen.tsx:32 | padding a digit string with `'0'` keeps its value |
| Timer.FormatTime | HomeScreen.tsx:29-33 | the display is at least 5 characters, with a colon third from the end and a two-character seconds field after it |
| Timer.SecondsFieldOfFormat | HomeScreen.tsx:31-32 | the seconds field is exactly two decimal digits whose value is `seconds % 60`, in 0..59 |
| Timer.MinutesFieldOfFormat | HomeScreen.tsx:30-32 | the minutes field is all decimal digits and denotes `floor(seconds / 60)` |
| Timer.DisplayWidth | HomeScreen.tsx:29-33 | the display has length exactly 5 iff `seconds < 6000`, then with `':'` at index 2; from 6000 on the minutes field has more than two digits |
| Timer.FieldsRoundTrip | HomeScreen.tsx:30-32 | round trip: both fields are decimal digits, and the minutes field times 60 plus the seconds field is the input |
| Timer.FormatTimeIsDisplay | HomeScreen.tsx:29-33 | every display is well formed: a minutes field of at least two digits, zero-padded only below 10, a colon, and two seconds digits below 60 |
| Timer.ParseFormatTime | HomeScreen.tsx:29-33 | reading back any display gives the seconds it was printed from: `ParseTime(formatTime(s))` is `s` for every natural `s` |
| Timer.FormatParseTime | HomeScreen.tsx:29-33 | every well-formed display text is what `formatTime` prints for the seconds `ParseTime` reads from it, so the well-formed texts are exactly the image of `formatTime` |
| Timer.FormatTimeInjective | HomeScreen.tsx:29-33 | different second counts are displayed differently, so every tick changes the display |
| Timer.CounterCountsTicks | HomeScreen.tsx:19-23 | the counter starts at 0 and each tick adds exactly 1, so after `n` ticks it reads `n` |
| Feed.FetchStart | HomeScreen.tsx:48-49 | issuing a feed request raises `loading` and changes nothing else |
| Feed.FetchSettle | HomeScreen.tsx:48-58 | a success replaces `data` wholesale with the payload; a failure keeps `data` and sets `error` to `'Failed to load content'`; both lower `loading`, keep the answers, and never clear an existing error |
| Feed.Reveal | HomeScreen.tsx:60-67 | a successful reveal sets `correctAnswer[id]` to the returned value and leaves every other id, `data`, `loading` and `error` unchanged; a failed one leaves the whole state unchanged |
| Feed.Highlights | HomeScreen.tsx:77-81 | a choice is highlighted iff the item's id has a stored answer equal to the choice text; none before a reveal; duplicates together |
| Session.Run | HomeScreen.tsx:39-67 | along any sequence of events an error once set is never cleared, is only ever the fetch message, and revealed ids are never forgotten |
| Session.DataIsLatestPayload | HomeScreen.tsx:48-58 | the list is the payload of the last successful feed response, or empty while there was none |
| Session.ErrorIffSomeFetchFailed | HomeScreen.tsx:42-58 | `error` is the fetch message iff some feed request has failed, empty otherwise |
| Session.LoadingIffPending | HomeScreen.tsx:41-58 | `loading` holds iff some feed request was issued after the last settled one |
| Session.AnswerIsLatestReveal | HomeScreen.tsx:40-67 | an id has a stored answer iff some reveal of it succeeded, and it holds the value of the last such reveal |
| Session.HighlightIffLatestRevealMatches | HomeScreen.tsx:60-81 | a choice is highlighted iff the last successful reveal of its item returned its text; none before any reveal |

## Left out

- The axios requests, their URLs and JSON decoding (HomeScreen.tsx:51, 62): network I/O, replaced by an `Outcome` parameter.
- `setInterval` / `clearInterval` and the effect lifecycle (HomeScreen.tsx:21-27, 44-46): scheduling, not logic; the mount fetch and the end-of-list fetch are both the `FetchStarted` event.
- Concurrent interleaving of pending requests: each settled response is one atomic event, in any order.
- Rendering: `FlatList` and its end-reached threshold, `keyExtractor`, images, icons, the spinner, the error text view and the style sheet (HomeScreen.tsx:69-174), except the highlight test on line 79.
- `console.error` logging of a failed reveal (HomeScreen.tsx:65).
- Timer.FormatTime: seconds are unbounded naturals; JavaScript numbers lose integer precision above 2^53 and `toString` switches to exponent notation from 10^21 on, which is not modelled. Negative and fractional inputs are excluded, as the counter never produces them.
- Decimal.PadStart: only a one-character filler is modelled; the source always pads with `'0'`.
- Feed.Reveal: a `correct` field that is `null` or missing is one `None` answer; both compare unequal to every choice, so the highlight cannot tell them apart.
- A reveal response whose body is `null` is not modelled: `response.data.correct` is read inside the state updater passed to `setCorrectAnswer` (HomeScreen.tsx:63), which React runs outside `revealAnswer`'s `try`, so the error never reaches the `catch` (HomeScreen.tsx:64-65) and instead breaks the next render. A feed body that is not an array, which the source would store as it is, is not modelled either: the payload is always a sequence of items.
- Strings are Dafny strings, sequences of Unicode scalar values, whereas JavaScript strings are UTF-16 code units; an `id`, choice or answer holding a lone surrogate cannot be represented. On representable strings `===` is sequence equality, so the highlight test is unaffected.
