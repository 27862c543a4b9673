# Live polling system — a Dafny model of its core

The system is a classroom live-polling app. A teacher opens a session and
students join it. The teacher then asks timed single-choice questions ("polls")
one at a time. Each student answers once, and the teacher watches the tally
fill up. A poll closes when its time limit passes or when every student has
answered. Its final results are then kept in the session's history.

The model covers three parts of the code:

- **The server** (`backend/server.js`). It covers:
  - the `Poll` and `PollSession` classes;
  - the module-level `sessions`, `activePolls` and `timers` maps;
  - the socket handlers: create-session, join-session, create-poll, the poll timer, submit-answer, remove-student, get-session-info and disconnect.
- **The poll store** (`src/store/pollSlice.ts`) of the browser client.
- **The session store** (`src/store/sessionSlice.ts`) of the browser client.

Files:

| file | module | contents |
|---|---|---|
| `common.dfy` | `Common` | `Option`; ids (`Uuid`, `ConnId`); `FindIndex` (`Array.prototype.findIndex`) |
| `tally.dfy` | `Tally` | Vote bookkeeping as values: option counts, the answers map, the results view with rounded percentages, and `addAnswer` exactly as written |
| `poll.dfy` | `Polls` | `class Poll` |
| `session.dfy` | `Sessions` | `class PollSession` |
| `server.dfy` | `PollServer` | `class Server`: the three maps, an id source, and one method per socket handler. `Expire` is the timer callback. |
| `poll_slice.dfy` | `PollSlice` | `class PollState`: one method per reducer of the poll store |
| `session_slice.dfy` | `SessionSlice` | `class SessionState`: one method per reducer of the session store |

How the model stands in for things outside the code:

- **Clock.** A handler that reads the clock takes `now`, in milliseconds.
- **Ids.** `uuidv4()` is replaced by the counter `Server.nextId`, so ids never repeat.
- **Replies.** The acknowledgement callback of a handler is its returned `Reply`, with the source's error strings.
- **Timers.** An armed `setTimeout` is an entry of `Server.timers`. Its firing is the separate step `Server.Expire`.
- **Invariants.** The server invariant `Server.Valid` says:
  - every poll is open exactly while its timer is armed;
  - each timer belongs to the poll filed under its id and to that poll's session;
  - the ghost multiset `archived` counts closures: it holds each closed poll's id exactly once and no open poll's id. `ClosePoll` is the only method that adds to it, and its ensures, and those of `Expire` and `SubmitAnswer` that call it, state the one append of results to the session's history that goes with each closure.
- **Tally consistency.** The tally of a poll agrees with its answers map: the counts add up to the number of answers. This is the class invariant `Poll.Valid`. The constructor establishes it, and `AddAnswer` and `EndPoll` keep it.

## Model

| member | source | states |
|---|---|---|
| `Common.FindIndex` | src/store/sessionSlice.ts:49 | The first index whose key matches. It is absent exactly when no element matches. |
| `Tally.SumOfBump` | backend/server.js:79 | Incrementing one option's votes raises the vote total by exactly one and keeps the number of options. |
| `Tally.Sum` | backend/server.js:84 | The total that `reduce` computes: no option holds more votes than it. |
| `Tally.FreshIsConsistent` | backend/server.js:65-70 | Options that all start at zero votes agree with an empty answers map. |
| `Tally.AcceptKeepsConsistent` | backend/server.js:78-79 | One new answer, from a student without an entry and naming an existing option, keeps the tally consistent. After it, every answer names an option, each option's count is the number of answers naming it, and the counts add up to the number of answers. |
| `Tally.Percentage` | backend/server.js:90 | 0 when there are no votes. Otherwise within half a point of `100 * votes / total`, with halves rounded up. At most 100. |
| `Tally.WithPercentages` | backend/server.js:88-91 | The results options keep the count, order, texts and votes of the tally's options. Every percentage is 0 when the total is 0, and at most 100 for an option whose votes do not exceed the total. |
| `Tally.PercentagesNearHundred` | backend/server.js:84-91 | With at least one vote, the rounded percentages of `n` options add up to 100 within `n/2` points. |
| `Tally.AddAnswerAsWritten` | backend/server.js:73-81 | `addAnswer` as written. It refuses exactly when the poll is closed or the student already has an entry. Otherwise it stores the answer first, and it throws exactly when the index names no option. |
| `Tally.AsWrittenOutOfRangeBreaksTally` | backend/server.js:78-79 | An out-of-range index on a consistent tally throws after storing the answer. The answers then outnumber the votes and the tally is no longer consistent. On the poll state it leaves, a later submission by that student is refused, which matters only if the process survives the exception. |
| `Tally.AsWrittenExample` | backend/server.js:78-79 | With two options and index 2, the call throws, leaving one answer and zero votes. |
| `Polls.Poll.constructor` | backend/server.js:61-71 | A new poll is open, has no end time and no answers, and gets one zero-vote option per text, in order. It satisfies the class invariant. |
| `Polls.Poll.AddAnswer` | backend/server.js:73-81 | Accepted exactly when the poll is open, the student has no entry and the index names an option. When accepted, it adds exactly that one answer and one vote on that option, so the total rises by one. When refused, neither the answers nor the votes change. The tally stays consistent. |
| `Polls.Poll.EndPoll` | backend/server.js:104-107 | The poll is closed and its end time stamped, so `AddAnswer` refuses every later answer. The votes are untouched. |
| `Polls.Poll.TimeRemaining` | backend/server.js:98-102 | 0 once closed. While open, at least the limit minus the elapsed seconds and equal to it whenever positive, so exactly `max(0, limit - elapsed)`; never above the limit. |
| `Polls.Poll.GetResults` | backend/server.js:83-96 | Same id, question and open flag. The options keep their order, texts and counts. The total is the vote sum, which equals the number of answers. Each percentage is the rounded share, at most 100, and all are 0 without votes. With votes they add up to 100 within half a point per option. |
| `Sessions.PollSession.constructor` | backend/server.js:27-34 | A new session has the caller as teacher, no students, no current poll and an empty history. |
| `Sessions.PollSession.AddStudent` | backend/server.js:36-43 | The student's entry is set afresh with `hasAnswered` false, overwriting any earlier entry. So afterwards not all students have answered. |
| `Sessions.PollSession.RemoveStudent` | backend/server.js:45-47 | Exactly that entry goes. If everyone had answered before, everyone still has. |
| `Sessions.PollSession.AllStudentsAnswered` | backend/server.js:55-57 | True exactly when every entry has `hasAnswered`; false exactly when some student has not answered; vacuously true with no students. |
| `Sessions.PollSession.ResetAnswers` | backend/server.js:49-57 | The same students remain, each entry unchanged except `hasAnswered`, which is now false. Afterwards `AllStudentsAnswered` (`every`) holds exactly when there are no students, so it is vacuously true for none. |
| `PollServer.Server.constructor` | backend/server.js:20-23 | The server starts with empty maps and satisfies the server invariant. |
| `PollServer.Server.CreateSession` | backend/server.js:114-124 | Files a fresh, empty session under a new id, with the caller as teacher, and replies with that id. |
| `PollServer.Server.JoinSession` | backend/server.js:127-165 | "Session not found" for an unknown session. Otherwise the caller's entry is set afresh, the rest of the session is unchanged, and the reply carries the students. |
| `PollServer.Server.CreatePoll` | backend/server.js:168-219 | Refused with "Unauthorized or session not found" unless the caller is the session's teacher. Refused with "Previous poll is still active" while the current poll is open and someone has not answered. A refusal changes nothing. When neither guard applies the call succeeds: a new open poll is created, with zero votes, the given question and options, and a time limit defaulting to 60. It is filed under a new id, made the current poll and armed with a timer, every `hasAnswered` is cleared, and the history is untouched. |
| `PollServer.Server.ArmPoll` | backend/server.js:185-201 | Files the poll under the next id and arms its timer for its session, keeping the server invariant. |
| `PollServer.Server.InstallPoll` | backend/server.js:183-184 | The poll becomes the session's current poll and every `hasAnswered` is cleared. |
| `PollServer.Server.ClosePoll` | backend/server.js:188-199 | An open poll is closed and stamped, its timer dropped, its results appended once to the session's history and its id added once to `archived`. The server invariant is kept. |
| `PollServer.Server.Expire` | backend/server.js:188-199 | A timer that is no longer armed does nothing. Otherwise the poll, which is still open, is closed, and its results are appended once to the history of the session that armed it. |
| `PollServer.Server.SubmitAnswer` | backend/server.js:222-272 | The reply is success exactly when every check passes. Each failure carries its own message ("Poll or session not found", "Student not found in session", "Already answered this poll", "Failed to submit answer", the last also for an index that names no option, where the code throws instead; see "## Left out") and changes nothing. On success the answer and one vote are recorded and the student is marked. If all students have now answered, the timer is cancelled, the poll is closed and one results entry is appended to the history. Otherwise the poll stays open with its timer and no end time. |
| `PollServer.Server.TakeAnswer` | backend/server.js:242-266 | The accepting half of submit-answer: record the answer, mark the student, and close the poll once all students have answered. |
| `PollServer.Server.RecordAnswer` | backend/server.js:242-244 | The student is marked exactly when the poll accepts the answer. Nothing changes otherwise. |
| `PollServer.Server.RemoveStudent` | backend/server.js:275-299 | "Unauthorized", with nothing changed, unless the caller is the teacher. Otherwise exactly that student's entry goes. |
| `PollServer.Server.GetSessionInfo` | backend/server.js:302-319 | "Session not found" for an unknown session. Otherwise a snapshot: the students, the current poll's results (null when there is none) and the history. |
| `PollServer.Server.Disconnect` | backend/server.js:321-343 | Exactly the sessions whose teacher is the socket are deleted. Every other session loses that socket's student entry, if it has one, and nothing else. |
| `PollServer.Server.Depart` | backend/server.js:326-341 | One loop step: delete the session if the socket is its teacher, otherwise drop the socket from its students. |
| `PollSlice.WithResults` | src/store/pollSlice.ts:48-53 | The results are appended unless an entry with their id is already present, in which case the history is unchanged. The id is then present, the history grows by at most one and keeps its prefix, and unique ids stay unique. |
| `PollSlice.WithResultsIdempotent` | src/store/pollSlice.ts:50-52 | The same results arriving twice are recorded once. |
| `PollSlice.PollState.constructor` | src/store/pollSlice.ts:26-32 | The initial state: no poll, empty history, not loading, not answered, nothing selected. |
| `PollSlice.PollState.SetPoll` | src/store/pollSlice.ts:38-42 | The poll is shown, and the answer flag and selection are reset. History and loading flag are untouched (not in its frame). |
| `PollSlice.PollState.UpdatePoll` | src/store/pollSlice.ts:43-47 | Replaces the shown poll only when one with the same id is shown. Otherwise nothing changes. |
| `PollSlice.PollState.SetPollResults` | src/store/pollSlice.ts:48-53 | The results are shown, and the history becomes `WithResults` of the old one, so unique ids stay unique. |
| `PollSlice.PollState.SetHasAnswered` | src/store/pollSlice.ts:54-59 | Sets the flag. The selection changes only when an option is given. |
| `PollSlice.PollState.ClearCurrentPoll` | src/store/pollSlice.ts:60-64 | No poll shown, answer flag and selection reset. History and loading flag are untouched. |
| `PollSlice.PollState.SetLoading` | src/store/pollSlice.ts:65-67 | Sets only the loading flag. |
| `PollSlice.PollState.SetPollHistory` | src/store/pollSlice.ts:68-70 | Sets only the history. |
| `SessionSlice.OrNull` | src/store/sessionSlice.ts:41-42 | `value \|\| null`: present exactly when given and non-empty, and then unchanged. |
| `SessionSlice.Upsert` | src/store/sessionSlice.ts:48-55 | If the id is listed, the first entry with it is replaced in place and the length is kept. Otherwise the student is appended and the length grows by one. The student is listed afterwards, and unique ids stay unique. |
| `SessionSlice.Without` | src/store/sessionSlice.ts:57 | No entry with the id is left, and the list does not grow. |
| `SessionSlice.WithoutCounts` | src/store/sessionSlice.ts:57 | Exactly the entries with the id are dropped. Every other entry keeps its multiplicity. |
| `SessionSlice.WithoutAppend` | src/store/sessionSlice.ts:57 | Filtering distributes over concatenation, so the kept entries keep their relative order. |
| `SessionSlice.WithoutAbsent` | src/store/sessionSlice.ts:57 | A list without the id is returned unchanged. |
| `SessionSlice.WithoutIdempotent` | src/store/sessionSlice.ts:57 | Removing twice is removing once. |
| `SessionSlice.WithoutKeepsUnique` | src/store/sessionSlice.ts:57 | Removal keeps ids unique. |
| `SessionSlice.SessionState.constructor` | src/store/sessionSlice.ts:20-28 | The initial state. |
| `SessionSlice.SessionState.SetSession` | src/store/sessionSlice.ts:34-44 | Sets the session and role. A missing or empty student id or name is stored as null. |
| `SessionSlice.SessionState.SetStudents` | src/store/sessionSlice.ts:45-47 | Replaces the list. |
| `SessionSlice.SessionState.AddStudent` | src/store/sessionSlice.ts:48-55 | The list becomes `Upsert` of the old one, through `findIndex` and an in-place write or a push. Unique ids stay unique. |
| `SessionSlice.SessionState.RemoveStudent` | src/store/sessionSlice.ts:56-58 | The list becomes `Without` of the old one. Unique ids stay unique. |
| `SessionSlice.SessionState.SetConnectionStatus` | src/store/sessionSlice.ts:59-64 | Sets the flag. Connecting clears the error, and disconnecting keeps it. |
| `SessionSlice.SessionState.SetConnectionError` | src/store/sessionSlice.ts:65-68 | Records the error and forces the flag to disconnected. |
| `SessionSlice.SessionState.ClearSession` | src/store/sessionSlice.ts:69-77 | Every field is back at its initial value. |

## Left out

- Socket.io plumbing is not modelled: rooms, `socket.join`, every `emit` (`student:joined`, `poll:active`, `poll:created`, `poll:update`, `poll:results`, `student:removed`, `student:left`, `teacher:disconnected`) and the forced disconnect of a removed student's socket (backend/server.js:286-290). Only the acknowledgement replies are kept.
- When a timer fires is not modelled. The `timeLimit * 1000` delay of `setTimeout` is not tracked: `Expire` may happen at any step, and a fired or cancelled timer is simply absent from `timers`.
- `uuidv4()` ids are counter values (`nat`). Client-side poll ids are compared as those values, and the server's `Date` stamps are integer milliseconds (`joinedAt` stays text on the client).
- `pollResults` (backend/server.js:22) is never used by the server and is left out.
- `Sessions.Student` does not store its `id` field: the id is always the key the entry is filed under, so it is the map key. `JoinSession` and `GetSessionInfo` reply with the students map instead of `Array.from(students.values())`, so the insertion order of a JavaScript `Map` is not modelled.
- `Tally.Percentage`: rounds the exact ratio half-up. The source rounds the floating-point product `(votes / total) * 100`, which can fall just below a half. For 29 votes of 200 the source gives 14 and the model gives 15.
- `Polls.Poll.TimeRemaining`: computed in exact real arithmetic, not in floating point.
- `PollServer.Server.Valid`: does not include each poll's tally consistency. That is the `Poll.Valid` class invariant, established by the constructor and kept by each `Poll` method. The server changes polls only through those methods.
- `PollServer.Server.Valid`: does not record that a session's current poll is one of the known polls, or that a session's students are filed under their own ids. So `GetSessionInfo` does not state that the current poll's total equals its number of answers.
- Create-poll does no validation of the question, the options or the time limit, as the code does none. Here an empty option list gives a poll that refuses every answer.
- `PollServer.Server.SubmitAnswer`: runs the corrected `Poll.AddAnswer` of the Findings row. An index that names no option is refused with "Failed to submit answer" and nothing changes. The code instead stores the answer, throws, and sends no reply; that behaviour is modelled only by `Tally.AddAnswerAsWritten`.
- Submit-answer does not check the poll id against the session's current poll, as in the code. An answer to another open poll is counted there, and the submitting session's history receives that poll's results if it closes.

## Findings

| source | as written | input that shows it | evidently intended | confidence | as-written member | corrected member |
|---|---|---|---|---|---|---|
| backend/server.js:78-79 | `addAnswer` stores the answer in `answers` before it increments `options[optionIndex].votes`. No bounds check happens on the index, so an out-of-range index throws after the answer is stored. | A poll with two options and no answers, then a submission with `optionIndex` 2. The answer is stored, no vote is counted and the student's `hasAnswered` is not set. The TypeError escapes the event listener and no reply is sent. If the process survives it, every later submission by that student is refused with "Failed to submit answer"; with no `uncaughtException` handler it more likely exits. | Refuse an index that names no option, before changing anything, so the votes always add up to the number of answers. | not executed | `Tally.AsWrittenOutOfRangeBreaksTally` | `Polls.Poll.AddAnswer` |
