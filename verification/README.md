# Interview-experience site: a Dafny model of its pure logic

The site lets students of one institution sign in with their institutional
address, submit interview reports (company, role, rounds of questions,
outcome) and browse them with search, filters and a like counter. Storage and
identity are hosted services. This project models the parts of the site that
are plain sequential logic and proves what they guarantee:

- **Query logic** (`lib/db.ts`): the client-side pipeline of
  `getFilteredExperiences` (case-insensitive search, then six exact-match
  criteria), the facet lists of `getFilterOptions`, and the way
  `likeExperience` maps the re-read counter to its return value.
- **Address gate** (`app/login/page.tsx`): `isValidEmail`, the pattern
  `^[a-zA-Z0-9._%+-]+@vitstudent\.ac\.in$`, and the guard that opens
  `handleSubmit`.
- **Submission form** (`app/submit/page.tsx`): the initial form, the six
  handlers that edit the rounds and questions, which of them the page
  offers, and the verification gate of `handleSubmit`.
- **Like bookkeeping** (`app/components/ExperienceList.tsx`): the session's
  liked ids, updated optimistically and reverted on failure.
- **Dialog like** (`app/components/ExperienceDetail.tsx`): the `isLiking`
  flag and the forwarding of a result to the list's handler.

Every backend call is a parameter: a `Fetch` (rows or a store error), an
`RpcReply`, a `CallOutcome` (a value, null, or an exception), a
`ProviderReply`. Each event handler is one atomic state transition.

Files: `wrappers.dfy` (Option), `seqs.dfy` (filter, remove-at-index,
first-occurrence de-duplication), `text.dfy` (ASCII lower-casing, substring
search, decimal text), `db.dfy`, `login.dfy`, `submit.dfy`,
`experience_list.dfy`, `experience_detail.dfy`.

Behaviour of the code worth knowing:
- Facet lists are in first-occurrence order, not unordered sets
  (lib/db.ts:196).
- A like click updates only the list of liked ids. The displayed like count
  is never changed on the client (app/components/ExperienceList.tsx:210).
- `getExperienceById` returns null both for a missing row and for a store
  error. The two cases are not told apart (lib/db.ts:48-53).
- One dialog like on an experience not yet liked sends two increments, not
  one (app/components/ExperienceDetail.tsx:33-35).

## Model

| member | source | states |
|---|---|---|
| `Db.GetFilteredExperiences` | lib/db.ts:226-270 | a store error yields []; otherwise the result has no more rows than were fetched, and every row in it was fetched |
| `Db.PipelineIsOneFilter` | lib/db.ts:234-270 | the search pass and the six criterion passes together equal one order-preserving filter by their conjunction |
| `Db.ApplyCriteriaIsFilter` | lib/db.ts:246-268 | the criterion passes, applied one after another, equal a single filter that keeps rows meeting every given criterion |
| `Db.KeptIffSelected` | lib/db.ts:236-268 | the pipeline's per-row test holds iff the lowercased search occurs in the lowercased company, role or location, and every non-empty criterion equals its column |
| `Db.FilteredMembership` | lib/db.ts:229-268 | a row is in the result iff it was fetched and the query selects it; nothing survives a store error |
| `Db.FilteredIsSubsequence` | lib/db.ts:238-268 | the result is an order-preserving subsequence of the fetched rows |
| `Db.FilteredIdempotent` | lib/db.ts:236-268 | re-running the same query on its own result returns it unchanged |
| `Db.UnfilteredIsIdentity` | lib/db.ts:234-270 | with the search and all six criteria absent or empty, the fetched list comes back unchanged |
| `Db.CriterionIsLiteral` | lib/db.ts:246-268 | a criterion of "all" is not a wildcard: every kept row has the literal text "all" in that column |
| `Db.AllSentinelExample` | lib/db.ts:246-248 | the company criterion "all" drops a report whose company is "Google" |
| `Db.SearchIsCaseInsensitiveExample` | lib/db.ts:236-243 | searching "google" keeps a "Google Inc" report and drops an "Amazon" one |
| `Db.GetFilterOptions` | lib/db.ts:185-215 | on a store error all six lists are empty; no list ever holds a value twice |
| `Db.FacetMembership` | lib/db.ts:195-202 | a value is offered for a field iff some fetched row has that value in that field |
| `Db.FacetHasNoDuplicates` | lib/db.ts:195-202 | each facet list is free of duplicates, also after a store error |
| `Db.FacetFirstOccurrenceOrder` | lib/db.ts:195-202 | facet values are ordered by the position of their first occurrence among the rows |
| `Db.FacetExample` | lib/db.ts:196 | companies "Google", "Amazon", "Google" give the company list ["Google", "Amazon"] |
| `Db.LikeExperience` | lib/db.ts:143-153 | the result is non-null iff the increment succeeded, the re-read found the row and its count is not 0; a non-null result is the re-read count |
| `Db.LikeAfterIncrement` | lib/db.ts:144-152 | when the re-read sees the bumped row, the caller gets the old count plus one, never null |
| `Seqs.Distinct` | lib/db.ts:196-201 | `[...new Set(xs)]` holds no duplicates and exactly the values of `xs` |
| `Seqs.DistinctFirstOccurrenceOrder` | lib/db.ts:196-201 | the de-duplicated values keep the order of their first occurrences |
| `Seqs.RemoveAt` | app/submit/page.tsx:96 | filtering out one index removes exactly that position when it is in range, and nothing otherwise |
| `Text.Lower` | lib/db.ts:237-242 | lower-casing keeps the length, leaves no upper-case letter, and changes no character that was not an upper-case letter |
| `Text.ContainsIffOccurs` | lib/db.ts:240-242 | the substring scan succeeds iff the needle occurs at some position of the text |
| `Text.ParseNatToString` | app/submit/page.tsx:89 | the decimal text of a round number reads back as that number |
| `Login.IsValidEmail` | app/login/page.tsx:21-24 | an address is accepted iff it is a non-empty local part of allowed characters followed by "@vitstudent.ac.in" |
| `Login.MatchCorrect` | app/login/page.tsx:22-23 | the anchored left-to-right run of the pattern accepts exactly those addresses |
| `Login.ValidIffLocalPartAllowed` | app/login/page.tsx:22 | local + "@vitstudent.ac.in" is accepted iff local is non-empty and uses only A-Z, a-z, 0-9 and . _ % + - |
| `Login.ValidEndsWithDomain` | app/login/page.tsx:22 | every accepted address ends in the domain text exactly, with the same case |
| `Login.SingleAtSign` | app/login/page.tsx:22 | an accepted address has exactly one '@', where the domain begins |
| `Login.TwoAtSignsRejected` | app/login/page.tsx:22 | any string with two '@' characters is refused |
| `Login.EmptyLocalPartRejected` | app/login/page.tsx:22 | the empty string and the bare "@vitstudent.ac.in" are refused |
| `Login.UpperCaseDomainRejected` | app/login/page.tsx:22 | the upper-case domain is refused whatever the local part |
| `Login.TrailingCharacterRejected` | app/login/page.tsx:22 | appending any character to an accepted address gets it refused |
| `Login.LiteralDotsExample` | app/login/page.tsx:22 | the dots are literal: "a@vitstudentXacXin" is refused |
| `Login.AcceptedExample` | app/login/page.tsx:22 | "john.doe2024@vitstudent.ac.in" is accepted |
| `Login.HandleSubmit` | app/login/page.tsx:26-47 | no provider call is made iff the address is invalid, which shows the domain message; a sign-in that succeeds leaves the cleared error and goes to the list, a rejected one shows the provider's message; a sign-up is followed by the verification mail iff it was accepted, and shows the provider's message on a rejection or the verification text otherwise |
| `Submit.InitialFormShape` | app/submit/page.tsx:28-40 | the form starts with one round, "Round 1", an empty description and questions [""] |
| `Submit.AddRound` | app/submit/page.tsx:86-91 | exactly one round is appended, named "Round " + (old count + 1), with an empty description and [""]; earlier rounds and other fields are unchanged |
| `Submit.RemoveRound` | app/submit/page.tsx:93-98 | exactly the round at the index is deleted, the others keep their order; an out-of-range index changes nothing |
| `Submit.AddQuestion` | app/submit/page.tsx:100-106 | "" is appended to that round's questions only; every other round and field is unchanged |
| `Submit.RemoveQuestion` | app/submit/page.tsx:108-114 | exactly that question of that round is removed (the list may become empty); everything else is unchanged |
| `Submit.RoundChange` | app/submit/page.tsx:70-76 | only the named field of the one round changes |
| `Submit.QuestionChange` | app/submit/page.tsx:78-84 | only the one question changes; every other question, round and field is unchanged |
| `Submit.RemoveUndoesAddRound` | app/submit/page.tsx:86-98 | removing the round just added gives the original form back |
| `Submit.RemoveUndoesAddQuestion` | app/submit/page.tsx:100-114 | removing the question just added gives the original form back |
| `Submit.QuestionChangeToSameText` | app/submit/page.tsx:78-84 | writing a question's own text back leaves the form unchanged |
| `Submit.Step` | app/submit/page.tsx:261-288 | an action the page offers changes the round count only through Add Round (+1) and Remove Round (-1, never below one round), and any other control leaves every other round as it was |
| `Submit.StepKeepsARound` | app/submit/page.tsx:284-288 | no offered action takes a form with a round to one without |
| `Submit.RunKeepsARound` | app/submit/page.tsx:227-296 | any session of offered actions keeps at least one round |
| `Submit.ReachableFormsHaveARound` | app/submit/page.tsx:284-288 | every form reachable from the initial one has at least one round |
| `Submit.QuestionsCanBecomeEmpty` | app/submit/page.tsx:269-276 | the remove-question button is offered on the only question, and clicking it leaves the round with no questions |
| `Submit.RoundNamesCanRepeat` | app/submit/page.tsx:86-98 | after a removal the next added round can repeat an existing "Round n" name |
| `Submit.HandleSubmit` | app/submit/page.tsx:116-139 | without a user or with an unverified one it alerts and makes no call; otherwise the user lookup comes first, a user row is created iff the lookup found none, and the experience is stored for the user obtained as the last call, the calls being exactly lookup-then-store or lookup-create-store; when neither lookup nor creation yields a user, nothing is stored |
| `Submit.SubmitStoresAtMostOnce` | app/submit/page.tsx:116-139 | one submission makes at most three calls and stores the experience at most once, only as its last call |
| `ExperienceList.Pending` | app/components/ExperienceList.tsx:27 | the optimistic append puts the id after the previously liked ids, disables the button, leaves the displayed experiences alone and keeps the list free of duplicates |
| `ExperienceList.RevertRestores` | app/components/ExperienceList.tsx:37-42 | filtering the id back out of the optimistic list restores the list from before the click |
| `ExperienceList.HandleLike` | app/components/ExperienceList.tsx:23-45 | an id already liked changes nothing and makes no call; otherwise exactly one call is made, a null or thrown result restores the prior state, a value keeps the id liked; displayed experiences never change; no duplicates appear |
| `ExperienceList.DisabledIffClickIgnored` | app/components/ExperienceList.tsx:197 | the list's like button is disabled iff the id is liked, which is exactly when the early return of `handleLike` makes a click do nothing and call nothing |
| `ExperienceList.DisabledWhilePending` | app/components/ExperienceList.tsx:197 | the button is enabled before the click and disabled while the call is awaited |
| `ExperienceList.RunLikesInvariant` | app/components/ExperienceList.tsx:23-45 | over any session, the liked list stays duplicate-free, the displayed experiences are untouched, and each click makes at most one call |
| `ExperienceList.CommittedLikeCanBeRepeated` | app/components/ExperienceList.tsx:34-37 | when the increment succeeded but the re-read failed, the like is reverted and a second click sends another increment |
| `ExperienceList.ZeroCountReverts` | app/components/ExperienceList.tsx:34-37 | a re-read count of 0 reads as null and reverts the like |
| `ExperienceDetail.StartLike` | app/components/ExperienceDetail.tsx:32 | while the call is awaited the dialog's like button is disabled |
| `ExperienceDetail.FinishLike` | app/components/ExperienceDetail.tsx:33-39 | the flag is cleared for every outcome; onLike gets (id, count) iff the call returned a count, and the list is then the list handler's result; the list is untouched and one call made otherwise |
| `ExperienceDetail.HandleLike` | app/components/ExperienceDetail.tsx:30-40 | a dialog click ends with the button enabled, makes one or two calls, two exactly when the call returned a count for an experience not yet liked, forwards iff a count came back, and leaves the list alone otherwise |
| `ExperienceDetail.FlagHeldOnlyDuringCall` | app/components/ExperienceDetail.tsx:30-39 | isLiking is true during the call and false after it, whether it returned a count, null or threw |
| `ExperienceDetail.DialogClickAlwaysCalls` | app/components/ExperienceDetail.tsx:30-40 | the dialog is not gated by the liked list: every click makes a call |
| `ExperienceDetail.DoubleIncrementWhenNotLiked` | app/components/ExperienceDetail.tsx:33-35 | on an experience not yet liked, a successful dialog click sends two increments |
| `ExperienceDetail.SingleIncrementWhenLiked` | app/components/ExperienceDetail.tsx:33-35 | on an experience already liked, a dialog click sends one increment and leaves the list as it was |
| `ExperienceDetail.RunClicksCalls` | app/components/ExperienceDetail.tsx:30-40 | k dialog clicks send between k and 2k increments, and exactly k once the experience is liked |

## Left out

- `createExperience`, `updateExperience`, `deleteExperience`, `createUser`, `getUserByEmail`, `getExperiences` and `getExperienceById` (lib/db.ts:36-45, 47-56, 58-119, 121-130, 132-141, 155-164, 166-175) are calls to the hosted store. Only their replies appear, as parameters.
- Db.GetFilteredExperiences: a reply with neither an error nor data (lib/db.ts:227-234) is not a `Fetch` case. The code would return null when no criterion is given (lib/db.ts:270) and throw at the first `.filter` that runs otherwise (lib/db.ts:238-267), unlike `getExperiences`, which falls back to `[]` (lib/db.ts:44). `getFilterOptions`' own null reply (lib/db.ts:186-188) throws at `.map` (lib/db.ts:196) and is caught, so it answers with empty facets (lib/db.ts:205-215), as for `StoreError`.
- `serializeBigInt` (lib/db.ts:32-34) is a JSON round trip through the runtime. Fetched rows are taken as already converted.
- The identity provider (sign-in, sign-up, verification mail, `onAuthStateChanged`) is foreign. Its answers are `ProviderReply` and `AuthUser` parameters.
- `toLowerCase` is modelled as ASCII case folding only. Non-ASCII letters are left unchanged, unlike full Unicode lower-casing.
- Dates (`toISOString`, `toLocaleDateString`, the date picker) depend on the host clock and locale. They are not modelled, and `handleChange`/`handleSelectChange` (app/submit/page.tsx:57-68), which only overwrite one top-level field, are left out with them.
- Submit.AddQuestion: requires a round index in range. Out of range, JavaScript throws a TypeError inside the state updater. The page only passes indices of rendered rounds.
- Submit.RemoveQuestion: requires a round index in range, for the same reason. Any question index is accepted, as in the source.
- Submit.QuestionChange: requires both indices in range. Out of range, JavaScript throws, or grows the questions array with holes. The page only passes rendered indices.
- Submit.RoundChange: requires a round index in range. Out of range, JavaScript would append a partial round. The page never does this.
- Async interleaving is not modelled: overlapping clicks, a stale `likedExperiences` closure, and React running a state updater twice. Each handler is one atomic transition. This also leaves out the effect of the in-place `push` and assignments on shared round objects (app/submit/page.tsx:81, 103, 111).
- Rendering, animation (framer-motion, the like-button scale timer), styling, routing and the cookie banner are not modelled.
- The filter form (app/components/SearchFilters.tsx) is not modelled. It only collects the `Filters` value. Its "all" option is treated as the literal text it sends.
