# Marketing-plan intake form: a Dafny model

The form asks a fixed list of nine questions one at a time. It keeps a step
counter and a map from question text to the whitespace-stripped answer in the
Streamlit session. When the list's fingerprint (an MD5 of the questions joined
with no separator) differs from the stored one, it starts a fresh session.
Once every question has an answer, it builds a nine-field `BusinessInfo`
record by position and hands it to a marketing-plan agent. "Start Over"
clears the session at any time.

The model has six modules:

- `Wrappers`: `Option` and `Result`.
- `Text`: Python's `str.strip()` over the characters for which `str.isspace()` holds.
- `Questions`: the question list, `"".join`, and the fingerprint. The hash is a parameter `digest`.
- `Intake`: the session datatype, the intake invariant, and the "Next" transition. These are stated for any question list.
- `Record`: `BusinessInfo` and its positional construction. A missing answer is the `KeyError` error value.
- `App`: one run of the script. The fingerprint check comes first, then at most one button press ("Next", "Generate Marketing Plan", "Start Over" or none), and finally the request that would go to the agent.

`st.session_state.clear()` is the store value `Cleared`. Its `get` then finds
no fingerprint, so the next run starts a fresh session.

The comment at app.py:55 says the session is reset "when QUESTIONS change".
Line 56 fingerprints `"".join(QUESTIONS)`, and joining loses the boundaries
between questions: `["ab", "c"]` and `["a", "bc"]` have one fingerprint. The
session survives script edits, so after an edit that only moves text across
a boundary, the old session is kept. Its keys are the old question texts, and
once it is complete "Generate" raises the `KeyError` on the first new text
(app.py:83-91). The model follows the code: `SameJoinKeepsSession` and
`EditedListCrashes` show this. The model also leaves the hash abstract, so
beyond the join it promises a reset only when the digests differ.

## Model

| member | source | states |
|---|---|---|
| Text.TrimStart | app.py:71-72 | the leading-whitespace cut is no longer than its input and does not start with whitespace |
| Text.TrimEnd | app.py:71-72 | the trailing-whitespace cut is a prefix of its input and does not end with whitespace |
| Text.TrimStartCuts | app.py:71-72 | `lstrip` keeps a suffix and removes only whitespace |
| Text.TrimEndCuts | app.py:71-72 | `rstrip` removes only whitespace |
| Text.Strip | app.py:71-72 | `answer.strip()` neither starts nor ends with whitespace and is no longer than the answer |
| Text.StripIsStripOf | app.py:71-72 | `strip()` returns the slice left after cutting whitespace-only runs at both ends |
| Text.StripUnique | app.py:71-72 | any slice with blank surroundings and non-blank ends is what `strip()` returns |
| Text.StripBlank | app.py:71 | an all-whitespace answer strips to the empty (falsy) string |
| Text.StrippedIsFixpoint | app.py:72 | `strip()` returns a string without surrounding whitespace unchanged |
| Text.StripIdempotent | app.py:71-72 | stripping twice equals stripping once |
| Text.StripEmptyIffBlank | app.py:71 | `answer.strip()` is falsy exactly when the answer is all whitespace |
| Questions.QuestionsDistinct | app.py:32-42 | the list has nine entries and no question occurs twice |
| Questions.Join | app.py:56 | `"".join(qs)`; its properties are stated by `JoinAppend` and `JoinEmpty` |
| Questions.JoinAppend | app.py:56 | joining a concatenation of lists concatenates their joins |
| Questions.JoinEmpty | app.py:56 | the joined text is empty exactly when every question is empty |
| Questions.Fingerprint | app.py:56 | the digest of the joined list; `SameJoinSameFingerprint` and `JoinLosesBoundaries` state what it can and cannot tell apart |
| Questions.JoinShift | app.py:56 | moving text from the end of one question to the start of the next leaves the joined text unchanged |
| Questions.SameJoinSameFingerprint | app.py:56 | lists with the same concatenation get the same fingerprint, whatever the hash |
| Questions.JoinLosesBoundaries | app.py:56 | moving text across a question boundary changes the list but not its fingerprint |
| Questions.BoundaryCollision | app.py:56 | two concrete different lists share one fingerprint |
| Intake.Submit | app.py:64-73 | "Next" while a question is shown and the answer is not blank stores the stripped answer under the current question, advances the step by one, and keeps every other answer; otherwise the session is unchanged |
| Intake.AskedNext | app.py:72-73 | each step adds exactly the question it answers, and with distinct questions that question is new |
| Intake.AskedCount | app.py:32-42 | with distinct questions, the first `k` steps cover `k` questions |
| Intake.InitialInv | app.py:60-61 | the fresh session (step 0, no answers) satisfies the intake invariant |
| Intake.SubmitPreservesInv | app.py:64-73 | "Next" preserves `step <= len(QUESTIONS)`, the answered set being exactly the first `step` questions, and the stripped non-empty values |
| Intake.AnswerCount | app.py:32-42 | under the invariant, there are exactly `step` answers |
| Intake.SubmitKeepsRecorded | app.py:72 | "Next" never drops or changes an answer already recorded |
| Intake.StoredAnswerStable | app.py:71-72 | every stored answer is non-empty and stripping it again changes nothing |
| Intake.NonBlank | app.py:71 | keeps exactly the answers that are not all whitespace: a value is in the result iff it is in the input and not blank, and an input with no blank answer is returned whole |
| Intake.SubmitAll | app.py:70-73 | pressing "Next" with each answer in turn never lowers the step, raises it by at most one per press, and never takes it past the number of questions; `SubmitAllPreservesInv` is its invariant |
| Intake.SubmitAllPreservesInv | app.py:64-73 | the invariant holds after any sequence of "Next" presses |
| Intake.SubmitAllSkipsBlank | app.py:70-71 | a sequence of presses gives the same session as the same presses with the blank answers dropped |
| Intake.CompleteAbsorbs | app.py:64 | once every question is answered, further "Next" presses change nothing |
| Intake.SubmitAllSteps | app.py:71-73 | each non-blank answer advances the step by one while questions remain |
| Intake.SubmitAllFillsLast | app.py:72-73 | the last of a run of non-blank answers is stored, stripped, under its own question |
| Intake.SubmitAllFills | app.py:72-73 | the `i`-th of a run of non-blank answers is stored, stripped, under question `step + i` |
| Intake.FreshFill | app.py:60-61 | from a session at step 0, question `i` is filled with the stripped `i`-th non-blank answer |
| Intake.FullIntake | app.py:64-77 | one non-blank answer per question from a fresh session completes the intake, with one answer per question and question `i` holding the stripped `i`-th answer |
| Record.FirstMissing | app.py:82-91 | finds the first question without an answer from index `k` on, or reports that all have one |
| Record.Build | app.py:82-92 | the record is built exactly when every question has an answer, and then field `i` is the answer to question `i`; otherwise the `KeyError` names the first question with no answer |
| Record.BuildByPosition | app.py:82-91 | the fields follow position, not meaning: `budget` holds the answer about where the customers are, and so on for all nine |
| Record.BuildComplete | app.py:77-91 | a complete valid session always builds, and every field is a non-empty stripped answer |
| Record.BuildIncomplete | app.py:82-91 | before completion, building fails on the question currently being asked |
| App.CheckFingerprint | app.py:56-61 | after the check the store holds the current fingerprint; a matching one leaves the store untouched, and any other (including a cleared store) gives step 0 and no answers |
| App.Run | app.py:56-105 | only "Start Over" clears the store; "Next" submits to the checked session; a request goes out only on "Generate" with the intake complete, and carries the built record |
| App.RunPreservesInv | app.py:56-105 | every run keeps the stored session valid for `QUESTIONS`, and a store valid for `QUESTIONS` never raises the `KeyError`; a session kept from another list can (`StaleSessionCrashes`) |
| App.CompleteUntilReset | app.py:64-81 | a complete session stays complete and unchanged through every run except "Start Over" or a new question list |
| App.StepNeverDecreases | app.py:56-74 | without "Start Over" or a new question list, no run lowers the step or changes a recorded answer |
| App.GenerateSendsRecord | app.py:81-96 | "Generate" on a complete session sends the record whose field `i` is the answer to question `i`, and changes nothing |
| App.StartOverResets | app.py:103-105 | "Start Over" clears the store, and the next run starts at step 0 with no answers, whatever came before |
| App.NewQuestionsReset | app.py:56-61 | a different fingerprint discards the stored session at the next run, whatever its step |
| App.SameJoinKeepsSession | app.py:56-57 | a new list that joins to the old text keeps the old session |
| App.StaleSessionCrashes | app.py:81-91 | a complete session of an older list, kept because the fingerprint matched, makes "Generate" raise the `KeyError` on the first served question the old list lacks |
| App.EditedJoin | app.py:56 | the list with the first question's "?" moved to the start of the second joins to the same text as `QUESTIONS` |
| App.EditedList | app.py:32-42 | that edited list has nine distinct questions, differs from `QUESTIONS`, and lacks `QUESTIONS[0]` |
| App.EditedSession | app.py:64-73 | nine non-blank answers complete a valid session under the edited list |
| App.EditedSessionCrashes | app.py:81-91 | "Generate" on that session fails on `QUESTIONS[0]` |
| App.EditedListCrashes | app.py:55-91 | after that edit the fingerprint is unchanged, the old session is kept, and "Generate" raises the `KeyError` on the first question |
| App.Replay | app.py:56-105 | the runs of a sequence of events: the store ends cleared exactly when the last event is "Start Over", and otherwise holds the current fingerprint; `ReplayNexts` ties it to the intake |
| App.Nexts | app.py:70 | one "Next" press per answer, in order |
| App.ReplayNexts | app.py:70-74 | a sequence of "Next" presses runs the intake machine on those answers |
| App.EndToEnd | app.py:56-96 | first load, nine non-blank answers, then "Generate": the agent receives the record whose field `i` is the stripped `i`-th answer |

## Left out

- Streamlit rendering, widgets, widget keys and `st.rerun` (app.py:53, 65-70, 78-79, 99-100): these are UI plumbing. The model keeps only the state changes they drive. One button press per run is the `Event` datatype.
- App serves the one fixed list `QUESTIONS`. A change of list reaches `Run` only through the fingerprint passed in. A session that was kept from another list is modelled as a stored session that is valid for that list (`StaleSessionCrashes`, `EditedListCrashes`). `StoreInv` and `RunPreservesInv` speak only of sessions valid for `QUESTIONS`.
- Loading `.env` and checking `OPENAI_API_KEY` (app.py:10-16): environment I/O done before any state exists.
- Building the agent and calling `Runner.run` under `asyncio.run` (app.py:45-49, 94-97): an external LLM library with async I/O. The model stops at the record the call would receive. The plan text and the agent's failures are not modelled.
- `Questions.Fingerprint`: MD5 and the UTF-8 encoding are one abstract parameter `digest`. Collision-freedom of MD5 cannot be proved, so nothing assumes different lists give different digests.
- Pydantic's `.dict()` and `str(...)` serialisation of the record (app.py:96): library formatting. The request carries the record itself.
- The `prompt.instructions` template (app.py:8): prompt.py is not part of this model.
- The insertion order of the answers dictionary, which only shows in the `st.json` readout (app.py:79): the model keeps a map, and lookups do not depend on order.
