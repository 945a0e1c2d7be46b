# coco-quiz: a Dafny model of the answer-submission core

coco-quiz is a live quiz. A player opens the quiz page under a username and
sends one free-text answer. The server keeps the answers in memory. An admin
can reset one player or everyone, which moves the active answers to a list of
reset answers and lets those players answer again. A parallel admin hook keeps
the same two lists in a remote store (tables `answers` and `reset_answers`).
A buzzer list shows the earliest press of each player.

This project models that core and proves properties of it:

- `AnswersStore` (lib/answers-store.ts): the in-memory store. The module-level
  variables are the fields of class `Store`. Their value is the datatype
  `StoreState`, whose member functions are the store's operations. Each method
  of `Store` is proved to move its state exactly as the matching function says.
  Lemmas prove how each operation behaves, and that two invariants hold:
  - `Valid`: ids are distinct and below the counter;
  - `Consistent`: a user is flagged exactly when they have one active answer.

  The routes keep both invariants only for string usernames, or under the
  corrected single-user reset; see "## Findings".
- `Http`: request bodies, as a map from field name to JSON value, and replies.
- `AnswersRoute`, `SubmitAnswerRoute` and `ResetUserRoute` (the three route
  handlers under app/api/): each handler is a method over the `Store`. It is
  proved equal to a pure function that gives the new state and the reply. The
  guard order, status codes and messages are those of the handlers.
- `UseAnswers` (lib/hooks/useAnswers.ts): the remote store is class `Database`,
  two tables whose calls either succeed whole or fail as one step. Failures are
  injected per step through a `Faults` record. The hook's React state is class
  `AnswersHook`. Its reset operations are proved never to lose a row, even when
  they fail part-way.
- `Buzz` (lib/hooks/buzz.ts): the reduce that keeps each user's first press, as
  a loop proved against a recursive specification.
- `Ordering`: the store's `ORDER BY`, given as a stable insertion sort that is
  proved sorted and a permutation.
- `Subsequences`: order-keeping sublists, shared by the store's filters and the
  buzzer reduce.
- `Time`: timestamps and clocks, shared by the store and the hook.
- `QuizContainer` (components/quiz-container.tsx): the quiz page's three state
  variables and its submit, status-check and `quiz-reset` handlers.

Clocks are parameters: `now` gives one timestamp, and a `Clock` stamps the k-th
moved record with `clock(k)`. Timestamps are natural numbers, not ISO strings.

## Model

| member | source | states |
|---|---|---|
| AnswersStore.Store.constructor | lib/answers-store.ts:3-5 | the store starts with counter 1, both lists empty and nobody flagged, and satisfies `Valid` and `Consistent` |
| AnswersStore.StoreState.AddAnswer | lib/answers-store.ts:8-17 | the ids in use are the old ones plus the counter's value, and the counter goes up by one |
| AnswersStore.Store.AddAnswer | lib/answers-store.ts:8-17 | the new state is `addAnswer` applied to the old one, and the returned record is the one appended |
| AnswersStore.AddAnswerIssuesFreshId | lib/answers-store.ts:8-17 | the new answer takes the counter's value, an id no record holds, and the counter goes up by one; the answer is appended to the active list with the given text, user and time and no reset stamp; nothing else changes; `Valid` is kept |
| AnswersStore.DistinctIds | lib/answers-store.ts:10 | under `Valid`, every record, active or reset, has an id from 1 up to but not including the counter, and no two records share an id |
| AnswersStore.Store.GetAnswers | lib/answers-store.ts:20-22 | returns the active list and changes nothing |
| AnswersStore.Store.GetResetAnswers | lib/answers-store.ts:25-27 | returns the reset list and changes nothing |
| AnswersStore.StoreState.MarkUserSubmitted | lib/answers-store.ts:33-35 | the user is flagged afterwards; the ids and the counter are unchanged |
| AnswersStore.Store.MarkUserSubmitted | lib/answers-store.ts:33-35 | the new state is the old one with the user's flag added |
| AnswersStore.MarkUserSubmittedFlags | lib/answers-store.ts:33-40 | after marking `u`, a user is flagged exactly when it is `u` or was flagged before; both lists are unchanged |
| AnswersStore.StoreState.HasUserSubmitted | lib/answers-store.ts:38-40 | the flag read, taken as membership of the flag set; it has no contract of its own, and `MarkUserSubmittedFlags` and the routes state its behaviour |
| AnswersStore.Store.HasUserSubmitted | lib/answers-store.ts:38-40 | returns whether the user is flagged, and changes nothing |
| AnswersStore.StoreState.ResetUserSubmission | lib/answers-store.ts:43-60 | the multiset of ids in use and the counter are unchanged: records are moved, never copied or created |
| AnswersStore.MatchingMembers | lib/answers-store.ts:50 | the filter keeps an answer exactly when it is in the list and written by the user |
| AnswersStore.MatchingSubsequence | lib/answers-store.ts:50 | the filter's result keeps the list's order |
| AnswersStore.OthersMembers | lib/answers-store.ts:59 | the filter keeps an answer exactly when it is in the list and not written by the user |
| AnswersStore.OthersSubsequence | lib/answers-store.ts:59 | the filter's result keeps the list's order |
| AnswersStore.Store.ResetUserSubmission | lib/answers-store.ts:43-60 | the new state is `resetUserSubmission` applied to the old one |
| AnswersStore.ResetUserSubmissionEffect | lib/answers-store.ts:43-60 | afterwards `u` is unflagged and has no active answer; the active list holds exactly the other users' answers, in their old order; other users' flags are unchanged; the old reset list is a prefix, followed by `u`'s former answers in order, each the same record with a reset stamp; the record count and the counter are kept |
| AnswersStore.ResetUserSubmissionNoOp | lib/answers-store.ts:50-59 | for a user without an active answer, both lists are unchanged |
| AnswersStore.StoreState.ResetAllUserSubmissions | lib/answers-store.ts:63-76 | the multiset of ids in use and the counter are unchanged |
| AnswersStore.Store.ResetAllUserSubmissions | lib/answers-store.ts:63-76 | the new state is `resetAllUserSubmissions` applied to the old one |
| AnswersStore.ResetAllUserSubmissionsEffect | lib/answers-store.ts:63-76 | afterwards nothing is active and nobody is flagged; the old reset list is followed by every old active answer, in order, each stamped; the record count and the counter are kept |
| AnswersStore.ResetsKeepValid | lib/answers-store.ts:43-76 | both resets keep `Valid` |
| AnswersStore.ResetsKeepConsistent | lib/answers-store.ts:43-76 | both resets keep `Consistent` |
| AnswersStore.ResetTwiceIsNoOp | lib/answers-store.ts:43-76 | a second reset of the same user, or of everyone, changes neither list |
| AnswersStore.AcceptKeepsInvariant | app/api/answers/route.ts:22-25 | for an unflagged user, `addAnswer` followed by `markUserSubmitted` keeps `Valid` and `Consistent` |
| AnswersRoute.PostResult | app/api/answers/route.ts:4-32 | an unreadable body gets 500; a missing, empty or non-string answer gets 400 "Antwort ist erforderlich", checked first; the same for the username gets 400 "Benutzername ist erforderlich"; a well-formed body gets 403 exactly when the user is flagged; otherwise 200, with the answer appended as the one new active entry, taking the counter's value as id and `now` as timestamp, the counter going up by one and the user flagged; every failure leaves the store unchanged |
| AnswersRoute.Post | app/api/answers/route.ts:4-32 | the handler's new store and reply are those of `PostResult` |
| AnswersRoute.Get | app/api/answers/route.ts:34-39 | returns both lists as they stand, and changes nothing |
| AnswersRoute.PostKeepsInvariant | app/api/answers/route.ts:4-32 | every `POST` keeps `Valid` and `Consistent` |
| AnswersRoute.SecondPostRefused | app/api/answers/route.ts:17-19 | with no reset in between, a second well-formed `POST` by the same user gets 403 |
| SubmitAnswerRoute.SubmitResult | app/api/submit-answer/route.ts:5-45 | an unreadable body gets 500; a falsy username or answer gets 400 "Username and answer are required"; a flagged key gets 400 "You have already submitted an answer"; otherwise 201, and the answer gets the counter's id and `now` as timestamp, is appended, the counter goes up by one, and the value's key form is flagged; every failure leaves the store unchanged |
| SubmitAnswerRoute.Post | app/api/submit-answer/route.ts:5-45 | the handler's new store and reply are those of `SubmitResult` |
| SubmitAnswerRoute.SubmitKeepsInvariant | app/api/submit-answer/route.ts:5-45 | every submit keeps `Valid` and `Consistent` |
| SubmitAnswerRoute.NonStringUsernameAccepted | app/api/submit-answer/route.ts:9-14 | a truthy username that is not a string is refused by the answers route and stored by the submit route under its key form |
| ResetUserRoute.ResetResult | app/api/reset-user/route.ts:4-30 | an unreadable body gets 500; a truthy `resetAll` resets everyone, whatever `username` holds; failing that, a falsy username gets 400 and nothing changes; otherwise that user is reset and "Benutzer … wurde zurückgesetzt" is returned, whether or not they had an answer |
| ResetUserRoute.Post | app/api/reset-user/route.ts:4-30 | the handler's new store and reply are those of `ResetResult` |
| ResetUserRoute.ResetKeepsInvariant | app/api/reset-user/route.ts:4-30 | every reset request keeps `Valid` and `Consistent` |
| ResetUserRoute.ResetThenPostAccepted | app/api/reset-user/route.ts:19 | after a single-user reset, a well-formed `POST /api/answers` by that user is stored |
| ResetUserRoute.ResetByRawValue | lib/answers-store.ts:43-60 | the single-user reset as written, applied to the raw request value: the flag under the value's key form is cleared and every other flag is kept; the ids and the counter are kept; a value that is not a string moves no answer, so both lists stay as they were |
| ResetUserRoute.ResetResultAsWritten | app/api/reset-user/route.ts:4-30 | the route with the single-user reset as written; it agrees with `ResetResult` unless the reset needs `username` and it is not a string |
| ResetUserRoute.RawResetBreaksConsistency | lib/answers-store.ts:43-60 | for a user with an active answer, a reset by a non-string `username` of the same key form unflags them but moves nothing, so `Consistent` fails, and a further `POST /api/answers` by them is stored as their second active answer; the corrected reset leaves them no active answer |
| ResetUserRoute.RepeatedResetIsNoOp | app/api/reset-user/route.ts:8-24 | sending the same reset request twice changes neither list the second time |
| Ordering.InsertBy | lib/hooks/useAnswers.ts:30 | inserting into a sorted sequence gives a sorted sequence holding the old elements plus the new one |
| Ordering.SortBy | lib/hooks/buzz.ts:33 | the result is in ascending key order and is a permutation of the input |
| UseAnswers.WithoutIdsExact | lib/hooks/useAnswers.ts:114-117 | a delete by a set of ids keeps a row exactly when it was present and its id is not in the set |
| UseAnswers.SnapshotDeleteEmpties | lib/hooks/useAnswers.ts:114-117 | deleting every id of a snapshot leaves none of the snapshot's rows |
| UseAnswers.DeleteOneId | lib/hooks/useAnswers.ts:156-159 | deleting by an id held by exactly one row removes that row only, one row fewer |
| UseAnswers.ExistingRowFindsOwnRow | lib/hooks/useAnswers.ts:55-63 | with at most one row per user, the single-row lookup finds a row exactly when the user has one, and that row is theirs |
| UseAnswers.DuplicateCheckMissesRepeats | lib/hooks/useAnswers.ts:55-63 | with two or more rows for a user, the single-row lookup returns nothing, so the duplicate check lets a further insert through |
| UseAnswers.NewestFirstOrdered | lib/hooks/useAnswers.ts:27-30 | the active list is newest first and is a permutation of the table |
| UseAnswers.NewestResetFirstOrdered | lib/hooks/useAnswers.ts:35-38 | the reset list is ordered most recently reset first and is a permutation of the table |
| UseAnswers.Database.SelectAnswers | lib/hooks/useAnswers.ts:88-90 | returns the `answers` table, or the injected error |
| UseAnswers.Database.SelectAnswersNewestFirst | lib/hooks/useAnswers.ts:27-32 | returns the `answers` table newest first, or the injected error |
| UseAnswers.Database.SelectResetNewestFirst | lib/hooks/useAnswers.ts:35-40 | returns the `reset_answers` table most recently reset first, or the injected error |
| UseAnswers.Database.SelectSingleByUsername | lib/hooks/useAnswers.ts:55-59 | returns the user's row when exactly one matches; otherwise the not-exactly-one error, or the injected error |
| UseAnswers.Database.SelectSingleById | lib/hooks/useAnswers.ts:136-140 | returns the row when exactly one row has the id; otherwise the not-exactly-one error, or the injected error |
| UseAnswers.Database.InsertAnswer | lib/hooks/useAnswers.ts:65-73 | on success, appends one row with a fresh id and returns it; on failure, changes nothing |
| UseAnswers.Database.InsertResetRows | lib/hooks/useAnswers.ts:99-106 | on success, appends the rows to `reset_answers`; on failure, changes nothing |
| UseAnswers.Database.DeleteIds | lib/hooks/useAnswers.ts:114-117 | on success, `answers` keeps its rows whose id is not listed; on failure, changes nothing; ids stay unique |
| UseAnswers.AnswersHook.constructor | lib/hooks/useAnswers.ts:17-20 | both lists start empty, `loading` starts true and there is no error |
| UseAnswers.AnswersHook.FetchAnswers | lib/hooks/useAnswers.ts:23-49 | both lists are replaced, ordered by time, only when both reads succeed; a failed read records its message and keeps both lists; `loading` ends false; together, the lists and error are `Refreshed` of the old ones over the tables |
| UseAnswers.AnswersHook.SubmitAnswer | lib/hooks/useAnswers.ts:52-82 | refused when the lookup yields a row; otherwise exactly one row with a fresh id is inserted, or the insert error is returned with the table unchanged; a table with at most one row per user keeps that property when the lookup succeeds; on failure the hook's state is unchanged; on success `loading` is false and the lists and error are those of the refresh over the new table |
| UseAnswers.AnswersHook.HandleReset | lib/hooks/useAnswers.ts:85-130 | a failed read, or an empty snapshot, changes nothing; otherwise the stamped snapshot is inserted and then the snapshot's ids are deleted; a failed step returns its error and no later step runs; no row is ever in neither table; on failure the hook's state is unchanged; after a completed reset `loading` is false and the lists and error are those of the refresh over the new tables |
| UseAnswers.AnswersHook.ResetIndividualAnswer | lib/hooks/useAnswers.ts:133-168 | the lookup fails unless exactly one row has the id; then that row is archived, stamped, and deleted; every other row is kept; a failed step returns its error; the row is never in neither table; on failure the hook's state is unchanged; on success `loading` is false and the lists and error are those of the refresh over the new tables |
| Buzz.FirstPerUser | lib/hooks/buzz.ts:37-42 | the reduce's result is no longer than its input and holds only input presses |
| Buzz.KeepFirstPerUser | lib/hooks/buzz.ts:37-42 | the loop computes the reduce's result `FirstPerUser` |
| Buzz.FetchBuzzers | lib/hooks/buzz.ts:28-50 | a failed read gives the empty list; otherwise the table, in ascending time, reduced to each user's first press |
| Buzz.FirstPerUserDistinct | lib/hooks/buzz.ts:37-42 | no username occurs twice in the result |
| Buzz.FirstPerUserUsers | lib/hooks/buzz.ts:37-42 | a username is in the result exactly when it is in the input |
| Buzz.FirstPerUserSubsequence | lib/hooks/buzz.ts:37-42 | the result is a subsequence of the input |
| Buzz.FirstPerUserKeepsFirsts | lib/hooks/buzz.ts:37-42 | a press is kept exactly when it is the first press of its username |
| Buzz.EarliestPressKept | lib/hooks/buzz.ts:33-42 | on presses in ascending time, the kept press of each user is no later than any of their presses |
| Buzz.FirstPerUserOfDistinct | lib/hooks/buzz.ts:37-42 | input with distinct usernames comes out unchanged |
| Buzz.FirstPerUserIdempotent | lib/hooks/buzz.ts:37-42 | reducing twice gives what reducing once gives |
| QuizContainer.TrimEmptyIffBlank | components/quiz-container.tsx:103 | an answer trims to the empty string exactly when every character is JavaScript white space |
| QuizContainer.View.StartSubmit | components/quiz-container.tsx:101-105 | the request is sent exactly when the answer is not blank and the user has not submitted; then `isSubmitting` becomes true; otherwise nothing changes |
| QuizContainer.View.FinishSubmit | components/quiz-container.tsx:120-140 | success clears the input and sets `hasSubmitted`; a failure keeps both and yields the alert text; `isSubmitting` ends false either way |
| QuizContainer.View.CheckSubmissionStatus | components/quiz-container.tsx:21-36 | after a successful fetch, `hasSubmitted` is whether the list holds an answer by the user; a failed fetch changes nothing; the input and `isSubmitting` are never touched |
| QuizContainer.View.OnQuizReset | components/quiz-container.tsx:63-93 | an event for another user, or a failed refetch, changes nothing; otherwise `hasSubmitted` is whether the refetched list holds the user's answer, and the input is cleared exactly when it does not; `isSubmitting` is never touched |
| QuizContainer.Settle | components/quiz-container.tsx:120-123 | a reply fails exactly when it is an error outside 2xx; the alert is the server's message when it has one, and never empty |
| QuizContainer.SubmittingBracketsRequest | components/quiz-container.tsx:105-140 | `isSubmitting` is true while a sent request is pending and false once it settles; a failed request leaves the view as before, apart from `isSubmitting` |
| QuizContainer.StatusMatchesServerFlag | components/quiz-container.tsx:21-36 | against a consistent store's list, the status check sets `hasSubmitted` to the store's own flag for the user |
| QuizContainer.ResetIgnoresPayload | components/quiz-container.tsx:63-93 | for any event that concerns the user, the new view depends only on the refetched list |
| QuizContainer.ResetHandlingIdempotent | components/quiz-container.tsx:63-93 | handling the same `quiz-reset` event twice gives the view that handling it once gives |
| QuizContainer.SubmitRoundTrip | components/quiz-container.tsx:101-141 | once a submit is answered by `POST /api/answers`, the page shows "submitted" exactly when the route stored the answer, and then the store holds the user's answer and flag |
| QuizContainer.QuizView.constructor | components/quiz-container.tsx:13-16 | the page starts with an empty input, not submitting and not submitted |
| QuizContainer.QuizView.SetUserAnswer | components/quiz-container.tsx:182 | only the input text changes |
| QuizContainer.QuizView.StartSubmit | components/quiz-container.tsx:101-118 | the state moves as `View.StartSubmit` says; the posted body holds the input text and the username |
| QuizContainer.QuizView.FinishSubmit | components/quiz-container.tsx:120-140 | the state and the alert are those of `View.FinishSubmit` |
| QuizContainer.QuizView.CheckSubmissionStatus | components/quiz-container.tsx:21-36 | the state moves as `View.CheckSubmissionStatus` says |
| QuizContainer.QuizView.OnQuizReset | components/quiz-container.tsx:63-93 | the state moves as `View.OnQuizReset` says |

## Left out

- SubmitAnswerRoute.SubmitResult: for a non-string username the model stores its key form as `answer.username`; the source stores the raw value. In the source, an answer stored under the number `5` is then not moved by a later reset for `"5"`, and is moved by a reset for `5`; the model moves it in the first case. SubmitAnswerRoute.SubmitKeepsInvariant therefore holds only because of this coercion.
- ResetUserRoute.ResetResult: this is the corrected single-user reset, which compares usernames by key form (see "## Findings"). ResetUserRoute.ResetKeepsInvariant holds for it, not for the reset as written, which `ResetUserRoute.ResetResultAsWritten` models over stores whose usernames are strings.
- AnswersStore.DistinctIds, AnswersStore.AddAnswerIssuesFreshId and `Valid`: `nextId` is a JavaScript number, so past 2^53 `nextId++` no longer changes it and later answers share an id. The model's counter is an unbounded natural number, so the fresh-id and distinct-id facts hold only for fewer than 2^53 answers.
- JSON numbers: values other than strings carry only their truthiness and key text. Floating point is not modelled.
- `userSubmissions` is a set of strings. JavaScript object quirks are not modelled: a name inherited from `Object.prototype`, such as `"constructor"`, reads as flagged in the source.
- Exceptions thrown inside the handlers, other than a body that cannot be read, are not modelled. Neither is the `instanceof Error` wrapping into generic messages in the hooks.
- The `reset` column of the `answers` table is not modelled, because no modelled code reads or writes it.
- Ties in `ORDER BY` are resolved stably by the model. The remote store promises no tie order, so only sortedness and the permutation property are relied on.
- The remote store's ids are natural numbers from a serial counter, not strings.
- Rows inserted by other clients between a reset's snapshot and its delete are not modelled. The delete by ids is exact (`UseAnswers.WithoutIdsExact`), so such rows stay in the table.
- Concurrency: interleaved requests, React's asynchronous state updates and overlapping handlers are not modelled. Each handler runs to completion in the model.
- The 100 ms wait, `focus()`, `alert()` as a side effect (returned as a value instead), socket connection, `new-answer` emits, `router.push`, `localStorage` and all console logging are left out as I/O.
- The hooks' real-time subscriptions and the buzzer's submit and reset functions are not part of this model.
- QuizContainer.View.CheckSubmissionStatus: a response that is not 2xx is treated like any failed fetch. The source does not check `response.ok` here and fails only when the body has no `answers` list.
- Timestamps are natural numbers instead of ISO strings, whose lexicographic order is the same for the dates involved.

## Findings

| source | as written | input that shows it | evidently intended | confidence | as-written member | corrected member |
|---|---|---|---|---|---|---|
| lib/answers-store.ts:43-60 | the flag is deleted under the key form of `username` (line 46), but both filters compare the raw request value with `===` (lines 50 and 59) | `POST /api/reset-user` with `{"username": 5}` while user `"5"` has an active answer; then `POST /api/answers` by `"5"` again | the user's answer is moved to the reset list as the flag is cleared, so the store stays consistent and a second answer starts a new round | not executed | ResetUserRoute.ResetResultAsWritten | ResetUserRoute.ResetResult |

`ResetUserRoute.RawResetBreaksConsistency` exhibits the discrepancy on the as-written member: the flag is gone, the answer is still active, and a second answer is stored. `ResetUserRoute.ResetKeepsInvariant` and `ResetUserRoute.ResetThenPostAccepted` are proved about the corrected member, which the rest of the model uses.
