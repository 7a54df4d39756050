# Secret Santa picker — a Dafny model

This project models the core of a small Secret Santa web app. Participants
type names into a textarea, one per line. The app draws who gives a gift to
whom, shows the pairings, and can "send" them by email.

The model covers four parts of the app:

- **The matcher** (`secret_santa.dfy`, module `SecretSanta`). It refuses fewer
  than two names. Otherwise it draws up to 1000 Fisher–Yates shuffles and keeps
  the first one in which nobody is their own receiver. If none qualifies, it
  falls back to the left rotation. The shuffle swaps cells of an array in
  place. The random draw `Math.floor(Math.random() * (i + 1))` is an arbitrary
  real in `[0, 1)` scaled and floored, so every property holds for every
  outcome of the draws.
- **The participant form** (`santa_form.dfy`, module `SantaForm`, with the
  JavaScript string built-ins in `js_string.dfy`, module `JsString`). It splits
  the text on `"\n"`, trims each line and drops blank lines. It then rejects
  lists with fewer than two names or with two names equal ignoring case. Every
  accepted list is therefore a list of distinct names, which is what the
  matcher needs to avoid self-assignment.
- **The email form** (`email_form.dfy`, module `Email`). The address pattern
  `^[^\s@]+@[^\s@]+\.[^\s@]+$` is modelled as a deterministic automaton. The
  automaton is proved equal to a declarative description of the address
  shape. The submit handler builds an error per giver and sends the matches on
  only when there are no errors.
- **The page** (`index_page.dfy`, module `Index`). It is a state machine over
  the view (`input`, `results`, `email`, `sent`) and the match list. `Dispatch`
  routes each user action to the handler that the current view mounts. It
  keeps an invariant:
  - the input view holds no matches;
  - every other view holds a valid draw: at least two distinct givers, each
    giving once and receiving once, nobody paired with themselves;
  - once sent, every giver has a valid address.

`wrappers.dfy` holds `Option` and `Result`; `sequences.dfy` holds the facts
about distinct sequences that the form's duplicate check relies on.

The names given to the matcher must be pairwise distinct for the derangement
guarantee. With `[A, A]`, the rotation pairs A with A
(`SecretSanta.RotateLeftNeedsDistinct`), and so does every result the matcher
can return (`SecretSanta.SelfMatchUnavoidable`). The participant form is what ensures
distinct names (`SantaForm.ValidateSpec`).

## Model

| member | source | states |
|---|---|---|
| `SecretSanta.GenerateMatches` | src/lib/secretSanta.ts:13-43 | Fails with "At least 2 participants are required" exactly when there are fewer than two names. Otherwise it returns one match per participant, in input order, with no email. The receivers are a rearrangement of the participants. Between 1 and 1000 shuffles are drawn. A shuffle that is kept has no self-pairing. The fallback is taken only after 1000 draws and is the left rotation. With distinct names no match pairs a giver with themselves. |
| `SecretSanta.ShuffleArray` | src/lib/secretSanta.ts:48-55 | For every outcome of the random draws: the result has the input's length and the same elements with the same multiplicities. It returns the history of its draws: one draw per step `i` from the last index down to 1, each in `[0, i]`. The result is the Fisher–Yates sequence of swaps for that history. The input sequence is a value and is not changed. |
| `SecretSanta.RandomIndex` | src/lib/secretSanta.ts:51 | The drawn index lies in `[0, i]`, whatever `Math.random` returns. |
| `SecretSanta.FisherYatesPermutes` | src/lib/secretSanta.ts:49-54 | Any sequence of in-range draws turns the input into a rearrangement of it. |
| `SecretSanta.ScaledFloorInRange` | src/lib/secretSanta.ts:51 | `Math.floor(x * (i + 1))` lies in `[0, i]` when `0 <= x < 1`. |
| `SecretSanta.SwapSpec` | src/lib/secretSanta.ts:52 | Exchanging two cells swaps those two values and leaves every other cell and the multiset of elements unchanged. |
| `SecretSanta.RotateLeft` | src/lib/secretSanta.ts:36 | The fallback gives each participant but the last the next participant as receiver, and gives the last one the first participant. |
| `SecretSanta.RotateLeftPermutes` | src/lib/secretSanta.ts:36 | The fallback rotation is a rearrangement of the participants. |
| `SecretSanta.RotateLeftNoFixedPoint` | src/lib/secretSanta.ts:34-37 | For two or more distinct names, the rotation pairs nobody with themselves. |
| `SecretSanta.RotateLeftNeedsDistinct` | src/lib/secretSanta.ts:36 | With a repeated name `[A, A]`, the rotation pairs A with A. |
| `SecretSanta.Pair` | src/lib/secretSanta.ts:39-42 | The pairing keeps the givers and the receivers, index by index, and leaves the email unset. |
| `SecretSanta.SelfMatchUnavoidable` | src/lib/secretSanta.ts:13-43 | With a repeated name `[A, A]`, every pairing with those givers and a rearrangement of them as receivers pairs A with A. This includes whatever the matcher returns. |
| `SecretSanta.TwoParticipantsSwap` | src/lib/secretSanta.ts:28-42 | For two distinct names A and B, the only pairing the matcher can return is A→B, B→A. |
| `SecretSanta.EveryoneGivesAndReceivesOnce` | src/lib/secretSanta.ts:7-12 | In a valid draw every participant occurs exactly once among the givers and exactly once among the receivers. |
| `Sequences.ElementsSize` | src/components/SecretSantaForm.tsx:31-32 | The set of a list's elements is never larger than the list. It has the list's size exactly when no element repeats. |
| `JsString.Split` | src/components/SecretSantaForm.tsx:20 | Splitting on a separator gives at least one piece, and no piece contains the separator. |
| `JsString.JoinSplit` | src/components/SecretSantaForm.tsx:20 | Joining the pieces of a split with the separator gives back the original text. |
| `JsString.SplitAppend` | src/components/SecretSantaForm.tsx:20 | Splitting `a`, a separator, then `b` gives the pieces of `a` followed by the pieces of `b`. |
| `JsString.SplitJoin` | src/components/SecretSantaForm.tsx:20 | Splitting the join of separator-free pieces gives back the pieces. |
| `JsString.LeadingSpaces` | src/components/SecretSantaForm.tsx:21 | The count is the longest all-whitespace prefix. |
| `JsString.TrailingSpaces` | src/components/SecretSantaForm.tsx:21 | The count is the longest all-whitespace suffix. |
| `JsString.TrimSpec` | src/components/SecretSantaForm.tsx:21 | `trim` returns a slice of its input with only whitespace outside it. The slice neither starts nor ends with whitespace. |
| `JsString.TrimIdempotent` | src/components/SecretSantaForm.tsx:21 | Trimming twice is the same as trimming once. |
| `JsString.TrimmedIsFixed` | src/components/SecretSantaForm.tsx:21 | A string with no whitespace at either end is left unchanged by `trim`. |
| `JsString.ToLower` | src/components/SecretSantaForm.tsx:31 | Lower-casing keeps the length and lower-cases each character. |
| `SantaForm.TrimAll` | src/components/SecretSantaForm.tsx:21 | Each line is replaced by its trimmed form, and the order is kept. |
| `SantaForm.DropEmpty` | src/components/SecretSantaForm.tsx:22 | The filter never grows the list and leaves no empty entry. Every non-empty entry is kept as many times as it occurs. |
| `SantaForm.DropEmptyAppend` | src/components/SecretSantaForm.tsx:22 | The filter keeps the order: filtering `a + b` gives the kept entries of `a`, then those of `b`. |
| `SantaForm.LowerAll` | src/components/SecretSantaForm.tsx:31 | Each name is replaced by its lower-case form, and the order is kept. |
| `SantaForm.ParseParticipantsSpec` | src/components/SecretSantaForm.tsx:19-22 | Every parsed name is non-empty and has no whitespace at either end. A name is parsed exactly when it is the non-empty trimmed form of some line of the input. |
| `SantaForm.ParseParticipantsCounts` | src/components/SecretSantaForm.tsx:19-22 | No parsed name is empty. Each non-empty name is parsed as many times as there are lines that trim to it. |
| `SantaForm.ParseOneLine` | src/components/SecretSantaForm.tsx:19-22 | A single line gives its trimmed form as the only name, or no name when it is blank. |
| `SantaForm.ParseLines` | src/components/SecretSantaForm.tsx:19-22 | The names of text `a`, a newline, then text `b` are the names of `a` followed by the names of `b`. Together with `ParseOneLine`, this fixes the parsed list: one name per non-blank line, in the order the lines are typed. |
| `SantaForm.ParseOnePerLine` | src/components/SecretSantaForm.tsx:19-22 | Trimmed, non-blank names typed one per line are parsed back exactly, in order. |
| `SantaForm.ValidateSpec` | src/components/SecretSantaForm.tsx:25-37 | Fewer than two names gives "Please enter at least 2 participants!", and this check comes first. Names that agree ignoring case give the duplicate-names message. Otherwise the parsed list is accepted. An accepted list has at least two pairwise distinct names. |
| `SantaForm.SecretSantaForm.constructor` | src/components/SecretSantaForm.tsx:12-13 | The text and the error start empty. |
| `SantaForm.SecretSantaForm.Edit` | src/components/SecretSantaForm.tsx:59-62 | Editing stores the text and clears the error. |
| `SantaForm.SecretSantaForm.HandleGenerate` | src/components/SecretSantaForm.tsx:15-38 | The error is cleared first. On a rejection the error is set to the validation message and `onGenerate` is not called. Otherwise `onGenerate` receives the parsed list, which has at least two distinct names. |
| `Email.ValidateEmailSpec` | src/components/EmailForm.tsx:20-22 | An address passes exactly when it is `L + "@" + D`. `L` is non-empty and has no `@` or whitespace. `D` has no `@` or whitespace and has a `.` at a position `k` with 0 < k and k + 1 < the length of D. |
| `Email.SubmitErrorsByGiver` | src/components/EmailForm.tsx:36-45 | A name has an error entry exactly when it is a giver whose address is missing, empty or rejected by the pattern. The entry is that giver's message, whichever of a repeated giver's matches is visited last. |
| `Email.SubmitErrorsSpec` | src/components/EmailForm.tsx:36-45 | Error keys are always givers. A missing or empty address gives "Email is required". A non-empty address that fails the pattern gives "Invalid email format". A valid address gives no entry. |
| `Email.WithEmails` | src/components/EmailForm.tsx:52-55 | Each match is kept in order, with its email set to the giver's entry (absent when the giver has none). |
| `Email.NoErrorsMeansValidEmails` | src/components/EmailForm.tsx:47-57 | When submit finds no error, the list passed on keeps every giver and receiver. It carries for each giver an address that passes the pattern. |
| `Email.EmailForm.constructor` | src/components/EmailForm.tsx:15-18 | The addresses map has exactly one key per giver, each mapped to `""`, and there are no errors. |
| `Email.EmailForm.HandleEmailChange` | src/components/EmailForm.tsx:24-33 | Only that giver's address is set. Only that giver's error is removed, and only when one is shown. Every other entry is unchanged. |
| `Email.EmailForm.HandleSubmit` | src/components/EmailForm.tsx:35-58 | With any error, the shown errors are replaced by the new ones and nothing is sent. Otherwise the errors are untouched and the email-annotated matches are sent. |
| `Index.IndexPage.constructor` | src/pages/Index.tsx:18-19 | The page starts in the input view with no matches. |
| `Index.IndexPage.HandleGenerate` | src/pages/Index.tsx:22-38 | On success the matcher's result is stored and the results view is shown. When the matcher throws, the view and the matches are unchanged. |
| `Index.IndexPage.HandleExportPDF` | src/pages/Index.tsx:40-46 | The current matches are handed to the export, and the page state is unchanged. |
| `Index.IndexPage.ShowEmailForm` | src/pages/Index.tsx:135 | The email view is shown, and the matches are unchanged. |
| `Index.IndexPage.Back` | src/pages/Index.tsx:150 | The results view is shown again, and the matches are unchanged. |
| `Index.IndexPage.HandleSendEmails` | src/pages/Index.tsx:48-58 | The annotated matches replace the old ones, and the sent view is shown. |
| `Index.IndexPage.HandleReset` | src/pages/Index.tsx:60-63 | The matches are emptied, and the input view is shown. |
| `Index.IndexPage.Dispatch` | src/pages/Index.tsx:114-165 | An action the current view does not offer changes nothing. Each offered action has its handler's effect, after the participant form's or the email form's validation. Every action keeps the page invariant: no matches in the input view, a valid draw in every other view, and valid addresses once sent. Reset is offered in the results and the sent views. |

## Left out

- Rendering, animation, styling and toast notifications, including the presentation components `ChristmasTree`, `MatchResults` and `EmailSentConfirmation`. `Match` is declared once, although the source declares the same interface twice.
- src/lib/pdfExport.ts is not part of this model. `Index.IndexPage.HandleExportPDF` only hands the matches over; the document's layout is not modelled.
- The quality of the randomness. The model does not claim that the shuffle is uniform or that a draw is accepted about 1/e of the time. `Math.random` is an arbitrary choice in `[0, 1)`.
- Floating point. `Math.random() * (i + 1)` is computed over exact reals rather than IEEE doubles.
- `Index.IndexPage.HandleSendEmails`: the 1000 ms `setTimeout` before the sent view is shown is modelled as one atomic step. The simulated delivery is not modelled.
- React state updates are modelled as immediate, in order, one handler at a time.
- `Index.IndexPage.Dispatch`: the two forms' own state is not part of the page's state. A generate action carries the textarea's text at the time of the click. A submit action carries the addresses typed at that time. The forms' error fields are modelled by the form classes, not by the page.
- `JsString.ToLower`: only the ASCII letters A–Z are lower-cased. JavaScript's full Unicode case mapping is not modelled, so two names that differ only in non-ASCII letter case are not flagged as duplicates here.
- Strings are sequences of Unicode scalar values, not UTF-16 code units. Lone surrogates cannot be represented.
- JavaScript object-key details of `Record<string, string>` (such as `__proto__`) are not modelled; a record is a `map`.
- The regular-expression engine itself is not modelled. The one pattern the form uses is modelled by an automaton that is proved equal to its declarative meaning.
