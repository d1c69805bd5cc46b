# Washing-machine survey reminder: reconciliation and scheduling model

A Dafny model of the core of a small WhatsApp webhook service. The service asks two
configured numbers whether the washing machine has finished, re-sends a reminder on every
scheduler tick until somebody answers affirmatively, then broadcasts a thank-you message and
stops the scheduler. State lives in one persisted record, `{responses, answered}`: the last
reply of each sender and a cached "somebody said yes" flag.

Modules:

- `Wrappers`: `Option`, for a missing form field or a missing or unparseable status file.
- `Text`: `str.strip()` and `str.lower()` as used on incoming replies, with lemmas
  (whitespace is removed only at the ends, idempotence, strip and lower commute).
- `Survey`: the record, the affirmative set `{"כן", "yes", "done"}`, the parse-or-default
  load, and the pure reconciliation of one reply (`ApplyReply`, `Reconcile`). The cache
  invariant `answered == any stored reply is affirmative` is proved after every reply.
- `Dispatch`: the configured sender, numbers and message texts; the gateway as a class whose
  `Send` records the attempt and whose outcome the model does not choose; `Broadcast`, the
  attempts one `send_message_to_all` makes.
- `App`: the abstract state `Sys` (status file, gateway log, scheduler `alive` and `stop`
  flags), one `After…` function per operation, lemmas about them, and class `App`. Its
  methods perform the handlers and the scheduler loop step by step, as app.py does, and
  each is proved to follow its `After…` function.

Behaviour of the code worth knowing:

- A reply is only stripped and lower-cased. Punctuation is kept, so "Yes!" is not
  affirmative (`Survey.PunctuationIsKept`).
- The record has no `firstSent` field. Every reminder goes to the whole `TO_NUMBERS` list.
  There is no per-recipient "outstanding" set.
- "Answered" means at least one stored reply is affirmative.
- The closing message goes out on every affirmative reply, not once per survey
  (`App.ClosingRepeatsOnEveryAffirmative`).
- A sender who overwrites their own affirmative reply can clear `answered`
  (`Survey.OwnOverwriteCanClear`). Another sender's reply cannot (`Survey.OtherAffirmativeSurvives`).

The concurrent parts are modelled sequentially. `App.App.SchedulerLoop` takes `waits`:
`waits[i]` is the list of requests that arrive while the loop waits after its i-th tick.
Setting the stop event wakes that wait, so the scheduler leaves its loop and ends before the
handler's `join` returns: the request that sets the event is the last one served during the
loop's run, and a later reset finds no live scheduler and starts a new one
(`App.ResetAfterAffirmativeRestarts`). When `waits` runs out, the loop is still running.

## Model

| member | source | states |
|---|---|---|
| `Text.IsSpace` | app.py:134-135 | the characters `strip()` removes: blank, tab, newline and carriage return are among them, no visible ASCII character is |
| `Text.Strip` | app.py:134-135 | `strip()` is no longer than its input and neither end of the result is whitespace |
| `Text.Lower` | app.py:135 | ASCII lower-casing keeps the length |
| `Text.LowerChar` | app.py:135 | an ASCII capital becomes its lower-case letter (code point + 32); every other character is unchanged |
| `Text.TrimStartSpec` | app.py:134-135 | removing leading whitespace yields a suffix of the input; every removed character is whitespace; the result does not start with whitespace |
| `Text.TrimEndSpec` | app.py:134-135 | removing trailing whitespace yields a prefix of the input; every removed character is whitespace; the result does not end with whitespace |
| `Text.StripSpec` | app.py:134-135 | `strip()` gives a contiguous slice of the input, and everything cut off at either end is whitespace |
| `Text.LowerSpec` | app.py:135 | ASCII lower-casing keeps the length and lower-cases each character on its own |
| `Text.LowerIdempotent` | app.py:135 | lower-casing leaves no ASCII capital, so lower-casing twice equals once |
| `Text.StripIdempotent` | app.py:134-135 | a string without whitespace at its ends is unchanged by `strip()`; stripping twice equals stripping once |
| `Text.LowerKeepsStripped` | app.py:135 | lower-casing a stripped string gives a stripped string |
| `Text.LowerTrimStart` | app.py:135 | lower-casing commutes with removing leading whitespace |
| `Text.LowerTrimEnd` | app.py:135 | lower-casing commutes with removing trailing whitespace |
| `Text.LowerStripCommute` | app.py:135 | `s.strip().lower() == s.lower().strip()` |
| `Text.NormaliseIdempotent` | app.py:135 | normalising an already normalised reply changes nothing |
| `Survey.Default` | app.py:115 | the reset record has no responses, is unanswered, and satisfies the cache invariant |
| `Survey.IsAffirmative` | app.py:144 | none of the affirmative replies "כן", "yes", "done" has whitespace at its ends |
| `Survey.AnyAffirmative` | app.py:153 | `any(...)` over the stored replies is false when nobody has replied |
| `Survey.Load` | app.py:25-33 | a missing or unparseable file yields the empty unanswered record; a parsed one is returned as stored; the result satisfies the cache invariant whenever the stored record does |
| `Survey.NormaliseSender` | app.py:134 | the sender key is the posted `From` field stripped: no whitespace at its ends, no longer than the field, "" when the field is absent |
| `Survey.NormaliseBody` | app.py:135 | the stored reply is the posted `Body` field stripped and lower-cased: no whitespace at its ends, no longer than the field, "" when the field is absent |
| `Survey.NormaliseBodySpec` | app.py:135 | a stored reply has no ASCII capital |
| `Survey.ApplyReply` | app.py:138-154 | the sender's entry becomes the text; every other sender's entry is unchanged and no sender is added or removed; `answered` equals recomputation over all stored replies; an affirmative text always leaves `answered` true |
| `Survey.Reconcile` | app.py:134-154 | for a posted `(From, Body)`: the stripped sender maps to the stripped, lower-cased body; all other entries are unchanged; the cache invariant holds; an affirmative body sets `answered` |
| `Survey.ReplyIdempotent` | app.py:138-154 | reconciling the same `(From, Body)` twice gives the same record as doing it once |
| `Survey.OtherAffirmativeSurvives` | app.py:139-153 | a reply never clears `answered` while a different sender's stored reply is affirmative |
| `Survey.OwnOverwriteCanClear` | app.py:140-153 | a consistent answered record whose only affirmative reply is overwritten by the same sender with "no" becomes unanswered |
| `Survey.ReplayConsistent` | app.py:143-154 | after any non-empty sequence of replies, from any stored record, `answered` agrees with recomputation |
| `Survey.PaddedCapitalsAffirm` | app.py:135-144 | " YES " is stored as "yes" and closes the survey |
| `Survey.PunctuationIsKept` | app.py:135-144 | "Yes!" is stored as "yes!" and does not close the survey |
| `Dispatch.Broadcast` | app.py:43-50 | a broadcast attempts one message per recipient, from the configured sender, in list order, each with the given text |
| `Dispatch.BroadcastSnoc` | app.py:45-50 | adding a recipient at the end of the list adds exactly its message at the end of the broadcast |
| `Dispatch.BroadcastReachesEachOnce` | app.py:45-50 | with distinct recipients, each listed recipient receives exactly one message and nobody else receives any |
| `Dispatch.ToNumbersDistinct` | app.py:13-16 | the two configured numbers are distinct |
| `Dispatch.Gateway.constructor` | app.py:21 | a new gateway has recorded no attempts |
| `Dispatch.Gateway.Send` | app.py:47 | a send appends exactly its message to the attempts, whatever the outcome |
| `App.RequestsKeepInvariants` | app.py:81-154 | serving any sequence of incoming, send-test and reset requests keeps the stored record's cache invariant, and a live scheduler never has its stop event set |
| `App.WaitServesPrefix` | app.py:75-77 | the requests served during one wait are a prefix of those that arrive in it |
| `App.RunKeepsInvariants` | app.py:64-78 | no run of the scheduler loop, with requests served during its waits, breaks the cache invariant, so every tick reads a faithful `answered`; the flags' invariant holds throughout |
| `App.RequestStopsIffAffirmative` | app.py:144-151 | one request served while the scheduler is alive sets the stop event exactly when it is an affirmative reply, and then the scheduler has ended; otherwise it is still alive |
| `App.WaitEndsExactlyOnAffirmative` | app.py:75-77 | a wait of a live scheduler ends with the stop event set exactly when an affirmative reply arrived during it, and then with the scheduler ended; otherwise the scheduler is still alive with the event clear |
| `App.WaitStopsAtFirstAffirmative` | app.py:75-77 | the wait ends at the first affirmative reply: exactly the requests up to and including it are served, and the scheduler has ended |
| `App.NoTickAfterAffirmativeReply` | app.py:64-78 | an affirmative reply during a wait ends the loop right there: the run is the tick followed by the requests up to that reply, no later tick runs, and the scheduler is no longer alive |
| `App.ResetAfterAffirmativeRestarts` | app.py:81-118 | a reset served after an affirmative reply finds no live scheduler, starts one with the stop event clear and the empty record stored, and that scheduler's first tick reminds every configured number |
| `App.StopFlagEndsLoop` | app.py:67-77 | with the stop flag up, the loop sends nothing and the scheduler ends |
| `App.TickRemindsIffPending` | app.py:67-73 | a tick sends each configured number exactly one reminder when the stored record is unanswered, sends nothing when it is answered, and changes nothing else: the log grows by exactly the reminder broadcast or by nothing |
| `App.SendTestAgreesWithTick` | app.py:121-128 | `/send-test` answers "sent_manual" exactly when the record is unanswered and "already_answered" otherwise; the log grows by exactly the broadcast of the manual reminder when the record is unanswered and by nothing otherwise, so each number gets one manual reminder exactly when a tick would remind; nothing else changes |
| `App.AffirmativeReplyCloses` | app.py:143-151 | an affirmative reply leaves the record answered, the stop event set and the scheduler ended, and appends the closing message once per configured number |
| `App.OtherReplyOnlyStores` | app.py:152-154 | a non-affirmative reply sends nothing and leaves both scheduler flags alone |
| `App.ClosingRepeatsOnEveryAffirmative` | app.py:143-151 | a second affirmative reply broadcasts the closing message again, although the record is already answered |
| `App.ResetRearms` | app.py:112-118 | a reset stores exactly the empty record, which loading returns; it leaves a live scheduler with the stop event clear, and the next tick reminds every number |
| `App.App.constructor` | app.py:160 | at start-up the stored file is taken as found and the scheduler is started |
| `App.App.LoadStatus` | app.py:25-33 | returns the stored record, or the empty record when the file is missing or unparseable |
| `App.App.SaveStatus` | app.py:36-40 | the file then holds exactly the given record |
| `App.App.SendToAll` | app.py:43-50 | tries every configured number once, in order; refused sends do not stop the loop; the gateway log grows by exactly that broadcast |
| `App.App.SendFinalMessage` | app.py:53-56 | broadcasts the closing message to every configured number |
| `App.App.StartScheduler` | app.py:81-88 | does nothing while a scheduler is alive; otherwise clears the stop flag and starts one |
| `App.App.StopScheduler` | app.py:91-96 | sets the stop event; the waiting scheduler ends before `join` returns, so none is alive afterwards; nothing else changes |
| `App.App.Incoming` | app.py:131-156 | stores the reconciled record; on an affirmative reply also broadcasts the closing message and stops the scheduler; always answers "OK" |
| `App.App.SendTest` | app.py:121-128 | returns "already_answered" and sends nothing when the record is answered; otherwise broadcasts the manual reminder and returns "sent_manual" |
| `App.App.ResetStatus` | app.py:112-118 | stores the empty record, starts the scheduler unless one is alive, answers "reset" |
| `App.App.Serve` | app.py:112-156 | performs one request through its handler |
| `App.App.Wait` | app.py:75-77 | serves the requests that arrive during the wait until one sets the stop event, and answers whether the event is set |
| `App.App.Tick` | app.py:67-73 | one pass of the scheduler loop: reminds every number unless the stored record is answered |
| `App.App.SchedulerLoop` | app.py:64-78 | runs ticks while the stop event is clear, each followed by a wait. Once the event is set it runs no further tick and the scheduler ends |

## Left out

- HTTP routing, form parsing and JSON responses. Only the handlers' effects and returned statuses ("OK", "sent_manual", "already_answered", "reset") are modelled. `/health` is not modelled. `/status` only returns `load_status()`.
- The Twilio client, message SIDs and all logging. A send is an attempt recorded by the gateway, with an outcome the model does not choose. A refused send is only logged, as in the source.
- File and JSON I/O. A status file is either a record or missing or unparseable (`None`). A file that parses but is not an object with both keys is not modelled. Python would then use `.get` defaults or fail.
- Threads, the file lock and races between the webhook and the scheduler. Requests are served one at a time, while the scheduler waits between ticks. The scheduler is taken to end within `join(timeout=2)`: a tick still running when the event is set (a slow send) could outlast the timeout, and a reset served then would find it alive and not start a new one; that race is not modelled.
- Survey.Load: errors opening the status file (app.py:29 is outside the `try`) propagate out of `load_status`, ending the scheduler thread or failing the request; they are not modelled.
- App.App.SaveStatus: write errors propagate; a failing save at app.py:146 would skip the closing broadcast and the stop. Saving always succeeds in the model.
- The reminder interval, environment configuration and `app.run`.
- Text.Lower: keeps the length, while Python's `str.lower()` can lengthen a string: `"\u0130".lower()` is `"i\u0307"`, two characters. This cannot change the affirmative test. A body containing U+0130 is not affirmative in either version: Python's result contains U+0307 and the model's keeps U+0130, and no affirmative reply contains either.
- Text.LowerChar: lower-cases ASCII letters only. Python's `str.lower()` also folds non-ASCII letters; the affirmative tokens (ASCII and Hebrew, which has no case) are unaffected.
- App.App.SchedulerLoop: follows the loop only as far as the given `waits` reach. A loop never stopped within them is still running when the model ends.
