# Skill-sharing server: talk store, change log and long polling

This project models the in-memory core of the skill-sharing server in
`server.js`, and proves properties of that model:

- **Talk store.** A map from title to talk. Each talk has a presenter, a
  summary and a list of comments. The four handlers that read or change it
  are GET, PUT and DELETE on `/talks/{title}`, and POST on
  `/talks/{title}/comments`.
- **Change log.** This is the `changes` array. Each successful change to the
  store appends one `{title, time}` entry. The backward scan
  `getChangedTalks(since)` turns the log into the change list a client with
  cursor `since` needs.
- **Long polling.** These are the parked requests in `waiting`:
  - GET `/talks?changesSince=s` answers at once, or parks the request.
  - `registerChange` answers every parked request and clears the list.
  - The 90-second timer answers its request with an empty list, but only if
    that request is still parked.

The model has three files, plus a file of scenarios:

- `talks.dfy` (module `Talks`): the records.
- `ledger.dfy` (module `Ledger`): the change log. It defines the specification
  function `ChangedTalks` and proves the properties of the change list about
  it.
- `server.dfy` (module `Server`): the class `Hub`. It holds the server's
  module-level state (`talks`, `changes`, `waiting`), and has one method per
  handler and per state-changing helper.

How the model represents the server:

- **Requests.** Every handler call is one request. The hub gives it the next
  request number.
- **Responses.** Every response the server writes is appended to `responses`
  as `Response(request, status, payload)`.
- **Timers.** An armed timer is a request number in `timers`. The timer
  firing is the separate event `Hub.Timeout`.
- **Time.** `Date.now()` is the parameter `now`. The hub keeps the last value
  it read in a ghost `clock`.

The invariant `Hub.Valid` holds between requests:

- Every request so far has been answered exactly once, or is parked and
  unanswered.
- Each talk is stored under its own title.
- Log times never decrease and are never later than the clock.

Because of that last point, the `serverTime` a response carries is at least
the time of every logged change.

The scan `Hub.GetChangedTalks` is proved equal to `ChangedTalks`. The proof
goes through `ScanFrom`, which follows the loop one step at a time. The lemma
`ScanFromIsScanned` ties `ScanFrom` to the reference definition of
`ChangedTalks` (deduplicated titles, newest first). The lemmas about
`ChangedTalks` give its properties:

- each title appears at most once;
- the list is empty exactly when the newest entry is no newer than the
  cursor;
- it names exactly the titles changed after the cursor;
- each title appears as its stored talk or as a deletion marker;
- titles come in order of their newest change;
- an earlier cursor sees a superset of titles;
- a change just made heads the list sent to a waiter whose cursor is earlier
  than the change's time; a waiter whose cursor equals that time gets an
  empty list.

Points where the code's behaviour may surprise a reader (the model follows
the code):

- **DELETE of an absent title.** It answers 204 and records no change.
- **POST validation order.** POST checks the body before it checks that the
  talk exists. A bad body on an absent title is therefore answered 400, not
  404.
- **Equal timestamps.** Entries with equal times are treated alike by the
  cut-off `time <= since`. Two changes within one clock tick can therefore
  hide the second from a client whose cursor equals that tick. The model
  keeps this: `Ledger.ChangedTalks` is empty whenever the newest entry's time
  equals the cursor.

`scenarios.dfy` (module `Scenarios`) drives a hub through three request
sequences and checks the answers using the handlers' contracts only:

- a talk is stored and then read back;
- a parked poll is answered by its timer with an empty list;
- a change answers a parked poll, and that poll's timer firing afterwards
  writes nothing more, so the poll is answered once.

## Model

| member | source | states |
|---|---|---|
| Ledger.Cut | server.js:156-159 | The scan index where the backward walk stops: every entry from it on is newer than the cursor, and the entry just before it is not |
| Ledger.AppendKeepsSorted | server.js:144 | Appending a change stamped with a clock reading no earlier than the last keeps log times non-decreasing and no later than the new time |
| Ledger.Describe | server.js:162-165 | A title is shown as its stored talk exactly when the store has it, and otherwise as the deletion marker for that title |
| Ledger.NewestFirst | server.js:156-157 | The titles of a log segment read from its end: element m is the title of the m-th newest entry |
| Ledger.Distinct | server.js:153-155 | Dropping repeats keeps every title that occurs and no other, and leaves no title twice |
| Ledger.ChangedTalks | server.js:151-168 | The change list for a cursor is empty exactly when the log is empty or its newest entry is no newer than the cursor |
| Ledger.LastIndex | server.js:156-161 | The position of the newest log entry for a title, or -1; no later entry has that title |
| Ledger.FirstIndex | server.js:153-155 | The first position of a title in a list of titles |
| Ledger.DescribeAllTitles | server.js:162-165 | Describing titles against well-keyed talks keeps the titles one for one and in order |
| Ledger.NewestFirstTitles | server.js:156-157 | Reading a segment backwards mentions exactly the titles of the segment |
| Ledger.ChangedTalksDistinct | server.js:153-155 | The change list names each title at most once |
| Ledger.ChangedTalksLiveOrDeleted | server.js:162-165 | Each entry of the change list is the talk stored now under its title, or exactly the marker `{title, deleted: true}` when no talk has that title |
| Ledger.ChangedTalksTitles | server.js:156-166 | The change list names exactly the titles of the log entries from the stop index on |
| Ledger.ScanStep | server.js:156-166 | One step of the backward walk: an entry whose title is already listed adds nothing, any other entry appends its title's description |
| Ledger.ScanFrom | server.js:156-166 | The list the loop holds after taking in the entries from an index on, one step at a time (skip a title already seen, else push its description); it is empty exactly when no entry has been taken in, and has at most one element per entry taken in |
| Ledger.ScanFromIsScanned | server.js:156-166 | The step-by-step backward scan, which keeps a title only the first time it meets it, builds exactly the titles of the scanned entries newest first, each once, described against the talks |
| Ledger.ScanPassesNewer | server.js:158-159 | The scan does not stop at an entry newer than the cursor: the stop index lies at or before it |
| Ledger.ScanStopsAtCut | server.js:156-159 | The scan ends, by reaching the start of the log or by the break at an entry no newer than the cursor, exactly at the stop index |
| Ledger.NewerIsScanned | server.js:156-159 | In a log with non-decreasing times, every entry newer than the cursor lies in the scanned part |
| Ledger.ScannedIsNewer | server.js:156-159 | Every entry in the scanned part is a log entry newer than the cursor |
| Ledger.ScanReachesNewer | server.js:156-159 | In a log with non-decreasing times, the scanned part mentions exactly the titles of entries newer than the cursor |
| Ledger.ChangedTalksSorted | server.js:151-168 | In a log with non-decreasing times, the change list names exactly the titles changed after the cursor, so no newer change is missed |
| Ledger.EarlierCursorSeesMore | server.js:156-159 | With non-decreasing times, an earlier cursor's change list names every title a later cursor's does |
| Ledger.DistinctHead | server.js:153-155 | Dropping repeats keeps the first title first |
| Ledger.FreshChangeFirst | server.js:143-146 | After a change is appended at a time later than a waiter's cursor, that waiter's change list is non-empty and starts with the changed title's current description |
| Ledger.DistinctKeepsOrder | server.js:153-155 | Dropping repeats keeps the survivors in the order of their first occurrence |
| Ledger.FirstIndexOfPrefix | server.js:153-155 | Appending a title does not move the first occurrence of a title already present |
| Ledger.NewestFirstOfSuffix | server.js:156-157 | Reading a suffix of the log from its end visits the whole log's entries newest first |
| Ledger.FirstIndexOfBackward | server.js:156-161 | In any newest-first reading of the log, a title first shows up at its newest entry |
| Ledger.FirstIndexIsNewest | server.js:156-160 | The first time the backward walk meets a title is at that title's newest log entry, which lies in the scanned part |
| Ledger.DistinctNewestOrder | server.js:156-161 | The deduplicated backward titles come in strictly decreasing order of their newest log position, all within the scanned part |
| Ledger.ChangedTalksNewestFirst | server.js:151-168 | The change list keeps for each title its most recent change: entries come in strictly decreasing order of the newest log position of their titles, all at or after the stop index |
| Server.StringField | server.js:65-67 | The value of a property of a parsed body, present exactly when the body is an object that has the property and the property is a string; the test behind "Bad talk data" and, at server.js:85-87, "Bad comment data" |
| Server.Wakeups | server.js:145-147 | Defined as the answers the `forEach` sends, one per waiter in order; its contract states only that no waiters give no answers, and the per-answer facts are in `Server.WakeupsAnswers` |
| Server.WakeupsAnswers | server.js:145-146 | There is one answer per waiter; answer k goes to waiter k's request with status 200 and `serverTime` now, and is empty exactly when the newest log entry is no newer than that waiter's cursor |
| Server.WakeupsAnswerParked | server.js:145-147 | Answering distinct parked requests that have no answer yet answers each of them once and adds no other request |
| Server.WakeupsStep | server.js:145-147 | Answering one more waiter extends the wake-up answers by exactly that waiter's change list |
| Server.RemoveWaiter | server.js:133-135 | Splicing one waiter out of a list of distinct waiters removes exactly its request |
| Server.Hub.constructor | server.js:25 | The hub starts as the module does: no talks (`talks` here), no parked requests (`waiting = []` at server.js:127) and no log (`changes = []` at server.js:141); also no responses and no timers |
| Server.Hub.Respond | server.js:13-23 | Writing the one outstanding answer appends exactly that response and restores the invariant that every request is answered once or parked |
| Server.Hub.SendTalks | server.js:99-104 | Answers 200 with the given list and the time read now as `serverTime`, which is no earlier than any logged change |
| Server.Hub.RegisterChange | server.js:143-149 | Appends exactly one log entry `(title, now)`, answers every request parked at the call with its change list computed after the append, in parking order, and leaves none parked; the answered set grows by exactly the parked set |
| Server.Hub.WaitForChanges | server.js:129-131 | Parks the request with its cursor at the end of the waiting list and arms its timer; nothing is answered |
| Server.Hub.GetTalk | server.js:27-33 | 200 with the stored talk when the title is present, otherwise 404 "No talk '…' found"; nothing else changes |
| Server.Hub.DeleteTalk | server.js:35-42 | A present title is removed (and no other key), one log entry is added and the parked requests are woken; an absent title changes nothing; both answer 204 |
| Server.Hub.PutTalk | server.js:60-78 | A read error answers 400 with its message and non-string presenter or summary answers "Bad talk data", changing nothing; otherwise the talk is stored afresh with no comments, one log entry is added, parked requests are woken, and the answer is 204 |
| Server.Hub.PostComment | server.js:80-97 | A read error or non-string author or message answers 400, an absent title 404, both changing nothing; otherwise the comment goes at the end of that talk's comments, no other talk changes, one log entry is added, parked requests are woken, and the answer is 204 |
| Server.Hub.GetTalks | server.js:106-125 | No cursor: 200 with a list holding every stored talk once; a non-numeric cursor: 400 "Invalid parameter" and nothing changes; a numeric cursor: 200 with the change list when it is non-empty, otherwise exactly one parked request and no answer |
| Server.Hub.AnswerOrWait | server.js:114-123 | For a numeric cursor, answers with the change list when non-empty and parks the request when empty |
| Server.Hub.SendAllTalks | server.js:108-112 | Answers 200 with a list holding every stored talk exactly once |
| Server.Hub.Timeout | server.js:132-138 | The timer is disarmed; a still-parked request is spliced out of the waiting list and answered 200 with an empty list stamped with the time read now; a request already answered gets nothing more and nothing else changes |
| Server.Hub.IndexOfWaiter | server.js:133 | The first position of the request in the waiting list, or -1 exactly when it is not parked |
| Server.Hub.ListTalks | server.js:109-111 | A list holding every stored talk exactly once and nothing else |
| Server.Hub.GetChangedTalks | server.js:151-168 | The backward scan with its break and skip returns exactly `ChangedTalks` of the log, the talks and the cursor |
| Server.Hub.AlreadySeen | server.js:153-155 | True exactly when the list built so far already names the title |

## Left out

- The HTTP server, the router and the static file server (`server.js:1-11`) are plumbing over libraries that are not part of this model.
- Header writing and `JSON.stringify` in `respond` and `respondJSON` are left out. A response is the value `(request, status, payload)`.
- `readStreamAsJSON` is stream I/O and JSON parsing. Its outcome is the input `Body`: an error message, or a parsed value that is an object or is not. Only string and non-string property values are told apart.
- `Date.now()` is the parameter `now`. The model requires it never to go backwards, so the log stays non-decreasing. A wall clock that steps back is not modelled.
- Server.Hub.RegisterChange: every response of one change carries the same `serverTime`, because the source reads the clock once per response and the model reads it once per change.
- `setTimeout` and the 90-second delay are not modelled. A timer firing is the event `Hub.Timeout`, which can happen at any point after its request was parked.
- `Number(query.changesSince)`:
  - A finite numeric cursor is modelled by its integer floor. Log times are integers, so the comparison `time <= since` is unchanged.
  - The infinite cursors are not modelled.
  - Every value that `isNaN` rejects is the single case `NotANumber`.
- Server.Hub.PostComment: only `author` and `message` of the comment are kept, although the source stores the whole parsed object with any other properties.
- Server.Hub.ListTalks: the model promises every talk exactly once, in some order. It does not model the insertion order of a JavaScript `for…in` loop.
- The waiting list holds request numbers, not response objects. The `indexOf` identity search becomes a search by request number, which is unique.
- `public/skillsharing_client.js` is browser I/O and rendering, and is not part of this model.
