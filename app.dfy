/**
 * The application in app.py without its HTTP, network, file and thread plumbing: the status
 * file, the gateway, and the reminder scheduler's `alive`/`stop` flags, changed by the
 * `/incoming`, `/send-test` and `/reset-status` handlers and by the scheduler loop.
 *
 * `Sys` is the abstract state and the `After…` functions say what each operation does to it;
 * class `App` performs the operations step by step and is proved to follow those functions.
 *
 * Requests are served one at a time, each while the scheduler (if any) is waiting between
 * two ticks. Raising the stop flag wakes that wait, so the scheduler leaves its loop and ends
 * before `join` returns to the handler that raised it.
 */
module App {
  import opened Wrappers
  import opened Survey
  import opened Dispatch

  /**
   * The status file (`None`: missing or unparseable), the gateway's log, whether a scheduler
   * thread exists and is alive, and whether the stop event is set.
   */
  datatype Sys = Sys(file: Option<Record>, attempts: seq<Message>, alive: bool, stop: bool)

  /** A request served by the web application. */
  datatype Request =
    | IncomingReply(from: Option<string>, body: Option<string>)  // POST /incoming
    | ManualSend                                                 // GET /send-test
    | Reset                                                      // GET /reset-status

  /** A request that closes the survey: an incoming reply whose body is affirmative. */
  predicate ClosingReply(req: Request) {
    req.IncomingReply? && Closes(req.body)
  }

  function AfterBroadcast(s: Sys, text: string): Sys {
    s.(attempts := s.attempts + Broadcast(ToNumbers, text))
  }

  /** `start_scheduler_background`: a no-op while a scheduler is alive; otherwise clear the stop flag and start one. */
  function AfterStart(s: Sys): Sys {
    if s.alive then s else s.(alive := true, stop := false)
  }

  /**
   * `stop_scheduler_background`: set the stop event; the waiting scheduler wakes, leaves its
   * loop and ends, and `join` returns after that.
   */
  function AfterStop(s: Sys): Sys {
    s.(stop := true, alive := false)
  }

  /** `/incoming`: reconcile and save; on an affirmative reply also broadcast the closing text and stop the scheduler. */
  function AfterIncoming(s: Sys, from: Option<string>, body: Option<string>): Sys {
    var saved := s.(file := Some(Reconcile(Load(s.file), from, body)));
    if Closes(body) then AfterStop(AfterBroadcast(saved, ClosingText)) else saved
  }

  /** One pass of the scheduler loop: remind everybody unless the stored record is answered. */
  function AfterTick(s: Sys): Sys {
    if Load(s.file).answered then s else AfterBroadcast(s, ReminderText)
  }

  /** `/send-test`: a manual reminder to everybody unless the stored record is answered. */
  function AfterSendTest(s: Sys): Sys {
    if Load(s.file).answered then s else AfterBroadcast(s, ManualReminderText)
  }

  /** The status `/send-test` answers with. */
  function SendTestReply(s: Sys): string {
    if Load(s.file).answered then "already_answered" else "sent_manual"
  }

  /** `/reset-status`: save the empty record and (re)start the scheduler. */
  function AfterReset(s: Sys): Sys {
    AfterStart(s.(file := Some(Default())))
  }

  function AfterRequest(s: Sys, req: Request): Sys {
    match req
    case IncomingReply(from, body) => AfterIncoming(s, from, body)
    case ManualSend => AfterSendTest(s)
    case Reset => AfterReset(s)
  }

  /** Requests served one after the other. */
  function AfterRequests(s: Sys, reqs: seq<Request>): Sys
    decreases |reqs|
  {
    if reqs == [] then s else AfterRequests(AfterRequest(s, reqs[0]), reqs[1..])
  }

  /**
   * The scheduler's wait (`_scheduler_stop_event.wait`): the requests in `reqs` are served
   * until one of them sets the stop event, which ends the wait; the rest arrive after it.
   */
  function AfterWait(s: Sys, reqs: seq<Request>): Sys
    decreases |reqs|
  {
    if reqs == [] || s.stop then s else AfterWait(AfterRequest(s, reqs[0]), reqs[1..])
  }

  /**
   * The scheduler loop: while the stop event is clear, tick and then wait, with `waits[i]`
   * the requests that arrive during the i-th wait. Once the event is set the loop ends and
   * the scheduler is no longer alive; when `waits` runs out the loop is still running.
   */
  function AfterRun(s: Sys, waits: seq<seq<Request>>): Sys
    decreases |waits|
  {
    if s.stop then s.(alive := false)
    else if waits == [] then s
    else AfterRun(AfterWait(AfterTick(s), waits[0]), waits[1..])
  }

  /** The stored record satisfies the cache invariant (a missing file counts as the empty record). */
  predicate StoreConsistent(s: Sys) {
    Consistent(Load(s.file))
  }

  /** A live scheduler never has its stop event set: setting it ends the scheduler. */
  predicate FlagsConsistent(s: Sys) {
    s.alive ==> !s.stop
  }

  /** Serving requests keeps the cache invariant of the stored record and the scheduler flags' invariant. */
  lemma {:induction false} RequestsKeepInvariants(s: Sys, reqs: seq<Request>)
    requires StoreConsistent(s) && FlagsConsistent(s)
    ensures StoreConsistent(AfterRequests(s, reqs)) && FlagsConsistent(AfterRequests(s, reqs))
    decreases |reqs|
  {
    if reqs != [] {
      var next := AfterRequest(s, reqs[0]);
      assert StoreConsistent(next) && FlagsConsistent(next);
      RequestsKeepInvariants(next, reqs[1..]);
    }
  }

  /** A wait serves a prefix of its requests: everything up to the one that sets the stop event, or all of them. */
  lemma {:induction false} WaitServesPrefix(s: Sys, reqs: seq<Request>)
    ensures exists k :: 0 <= k <= |reqs| && AfterWait(s, reqs) == AfterRequests(s, reqs[..k])
    decreases |reqs|
  {
    if reqs == [] || s.stop {
      assert AfterWait(s, reqs) == AfterRequests(s, reqs[..0]);
    } else {
      var next := AfterRequest(s, reqs[0]);
      WaitServesPrefix(next, reqs[1..]);
      var k :| 0 <= k <= |reqs[1..]| && AfterWait(next, reqs[1..]) == AfterRequests(next, reqs[1..][..k]);
      assert reqs[..k + 1][1..] == reqs[1..][..k];
      assert AfterWait(s, reqs) == AfterRequests(s, reqs[..k + 1]);
    }
  }

  /**
   * No run of the scheduler loop, with the requests served during its waits, breaks the
   * cache invariant; so every tick reads a faithful `answered`.
   */
  lemma {:induction false} RunKeepsInvariants(s: Sys, waits: seq<seq<Request>>)
    requires StoreConsistent(s) && FlagsConsistent(s)
    ensures StoreConsistent(AfterRun(s, waits)) && FlagsConsistent(AfterRun(s, waits))
    decreases |waits|
  {
    if !s.stop && waits != [] {
      var t := AfterTick(s);
      WaitServesPrefix(t, waits[0]);
      var k :| 0 <= k <= |waits[0]| && AfterWait(t, waits[0]) == AfterRequests(t, waits[0][..k]);
      RequestsKeepInvariants(t, waits[0][..k]);
      RunKeepsInvariants(AfterWait(t, waits[0]), waits[1..]);
    }
  }

  /**
   * One request served while the scheduler is alive ends it exactly when it is an affirmative
   * reply; any other request leaves it alive with the stop event clear.
   */
  lemma RequestStopsIffAffirmative(s: Sys, req: Request)
    requires s.alive && !s.stop
    ensures var t := AfterRequest(s, req);
      && (t.stop <==> ClosingReply(req)) && t.alive == !t.stop
  {
  }

  /**
   * A wait that starts with a live scheduler ends with the stop event set exactly when an
   * affirmative reply arrived during it, and then the scheduler has ended; otherwise the
   * scheduler is still alive with the event clear.
   */
  lemma {:induction false} WaitEndsExactlyOnAffirmative(s: Sys, reqs: seq<Request>)
    requires s.alive && !s.stop
    ensures var t := AfterWait(s, reqs);
      && t.alive == !t.stop
      && (t.stop <==> exists j :: 0 <= j < |reqs| && ClosingReply(reqs[j]))
    decreases |reqs|
  {
    if reqs != [] {
      var next := AfterRequest(s, reqs[0]);
      RequestStopsIffAffirmative(s, reqs[0]);
      if !ClosingReply(reqs[0]) {
        WaitEndsExactlyOnAffirmative(next, reqs[1..]);
        assert forall j :: 1 <= j < |reqs| ==> reqs[1..][j - 1] == reqs[j];
      }
    }
  }

  /**
   * The wait ends at the first affirmative reply: exactly the requests up to and including it
   * are served during the wait.
   */
  lemma {:induction false} WaitStopsAtFirstAffirmative(s: Sys, reqs: seq<Request>, j: nat)
    requires s.alive && !s.stop
    requires j < |reqs| && ClosingReply(reqs[j])
    requires forall k :: 0 <= k < j ==> !ClosingReply(reqs[k])
    ensures AfterWait(s, reqs) == AfterRequests(s, reqs[..j + 1])
    ensures AfterWait(s, reqs).stop && !AfterWait(s, reqs).alive
    decreases j
  {
    var next := AfterRequest(s, reqs[0]);
    RequestStopsIffAffirmative(s, reqs[0]);
    if j == 0 {
      assert reqs[..1][1..] == [];
    } else {
      WaitStopsAtFirstAffirmative(next, reqs[1..], j - 1);
      assert reqs[..j + 1][1..] == reqs[1..][..j];
    }
  }

  /**
   * An affirmative reply arriving while the scheduler waits ends the loop right there: the
   * requests after it in that wait, and all later waits, are no part of the loop's run, no
   * later tick runs, and the scheduler has ended.
   */
  lemma NoTickAfterAffirmativeReply(s: Sys, wait: seq<Request>, later: seq<seq<Request>>, j: nat)
    requires s.alive && !s.stop
    requires j < |wait| && ClosingReply(wait[j])
    requires forall k :: 0 <= k < j ==> !ClosingReply(wait[k])
    ensures var t := AfterRun(s, [wait] + later);
      && t == AfterRequests(AfterTick(s), wait[..j + 1])
      && t.stop && !t.alive
  {
    WaitStopsAtFirstAffirmative(AfterTick(s), wait, j);
    assert ([wait] + later)[1..] == later;
  }

  /**
   * A reset served after an affirmative reply finds the stopped scheduler gone, so it starts
   * a new one with the stop event clear; the new scheduler's first tick reminds every
   * configured number again.
   */
  lemma ResetAfterAffirmativeRestarts(s: Sys, from: Option<string>, body: Option<string>)
    requires s.alive && !s.stop && Closes(body)
    ensures var t := AfterRequests(s, [IncomingReply(from, body), Reset]);
      && t.alive && !t.stop && Load(t.file) == Default()
      && AfterTick(t).attempts == t.attempts + Broadcast(ToNumbers, ReminderText)
  {
    var u := AfterIncoming(s, from, body);
    assert !u.alive;
    assert [IncomingReply(from, body), Reset][1..] == [Reset] && [Reset][1..] == [];
    assert AfterRequests(s, [IncomingReply(from, body), Reset]) == AfterRequests(u, [Reset]);
    assert AfterRequests(u, [Reset]) == AfterRequests(AfterReset(u), []);
  }

  /** Once the stop event is set, the loop runs no tick at all. */
  lemma StopFlagEndsLoop(s: Sys, waits: seq<seq<Request>>)
    requires s.stop
    ensures AfterRun(s, waits).attempts == s.attempts && !AfterRun(s, waits).alive
  {
  }

  /**
   * A tick reminds each configured number exactly once when the stored record is not
   * answered, sends nothing when it is, and changes nothing else.
   */
  lemma TickRemindsIffPending(s: Sys, to: string)
    requires to in ToNumbers
    ensures var t := AfterTick(s);
      && t.file == s.file && t.alive == s.alive && t.stop == s.stop
      && t.attempts == s.attempts + (if Load(s.file).answered then [] else Broadcast(ToNumbers, ReminderText))
      && |s.attempts| <= |t.attempts| && t.attempts[..|s.attempts|] == s.attempts
      && CountTo(t.attempts[|s.attempts|..], to) == (if Load(s.file).answered then 0 else 1)
      && (forall m :: m in t.attempts[|s.attempts|..] ==> m.body == ReminderText)
  {
    var t := AfterTick(s);
    ToNumbersDistinct();
    BroadcastReachesEachOnce(ToNumbers, ReminderText, to);
    if !Load(s.file).answered {
      assert t.attempts[|s.attempts|..] == Broadcast(ToNumbers, ReminderText);
    } else {
      assert t.attempts[|s.attempts|..] == [];
    }
  }

  /**
   * `/send-test` decides exactly as a tick does: it reports "sent_manual" and sends the manual
   * reminder once to each configured number when the record is not answered, and reports
   * "already_answered" and sends nothing when it is; nothing else changes.
   */
  lemma SendTestAgreesWithTick(s: Sys, to: string)
    requires to in ToNumbers
    ensures var t := AfterSendTest(s);
      && (SendTestReply(s) == "sent_manual" <==> !Load(s.file).answered)
      && (SendTestReply(s) == "already_answered" <==> Load(s.file).answered)
      && t.file == s.file && t.alive == s.alive && t.stop == s.stop
      && t.attempts == s.attempts + (if Load(s.file).answered then [] else Broadcast(ToNumbers, ManualReminderText))
      && |t.attempts| == |AfterTick(s).attempts|
      && |s.attempts| <= |t.attempts| && t.attempts[..|s.attempts|] == s.attempts
      && CountTo(t.attempts[|s.attempts|..], to) == (if Load(s.file).answered then 0 else 1)
  {
    var t := AfterSendTest(s);
    ToNumbersDistinct();
    BroadcastReachesEachOnce(ToNumbers, ManualReminderText, to);
    if !Load(s.file).answered {
      assert t.attempts[|s.attempts|..] == Broadcast(ToNumbers, ManualReminderText);
    } else {
      assert t.attempts[|s.attempts|..] == [];
    }
  }

  /**
   * An affirmative reply always ends with the record answered, the closing text sent once to
   * each configured number, and the stop flag raised.
   */
  lemma AffirmativeReplyCloses(s: Sys, from: Option<string>, body: Option<string>, to: string)
    requires Closes(body) && to in ToNumbers
    ensures var t := AfterIncoming(s, from, body);
      && Load(t.file).answered && t.stop && !t.alive
      && t.attempts == s.attempts + Broadcast(ToNumbers, ClosingText)
      && CountTo(Broadcast(ToNumbers, ClosingText), to) == 1
  {
    ToNumbersDistinct();
    BroadcastReachesEachOnce(ToNumbers, ClosingText, to);
  }

  /** Any other reply is only stored: nothing is sent and the scheduler flags stay as they were. */
  lemma OtherReplyOnlyStores(s: Sys, from: Option<string>, body: Option<string>)
    requires !Closes(body)
    ensures var t := AfterIncoming(s, from, body);
      && StoreConsistent(t) && t.attempts == s.attempts && t.stop == s.stop && t.alive == s.alive
  {
  }

  /**
   * The closing text goes out on every affirmative reply, not once per survey: a second
   * affirmative reply broadcasts it again although the record was already answered.
   */
  lemma ClosingRepeatsOnEveryAffirmative(s: Sys, from1: Option<string>, body1: Option<string>,
                                         from2: Option<string>, body2: Option<string>)
    requires Closes(body1) && Closes(body2)
    ensures var t := AfterIncoming(s, from1, body1);
      && Load(t.file).answered
      && AfterIncoming(t, from2, body2).attempts
         == s.attempts + Broadcast(ToNumbers, ClosingText) + Broadcast(ToNumbers, ClosingText)
  {
  }

  /**
   * A reset stores exactly the empty record, which loading gives back, and leaves a live
   * scheduler with the stop event clear (a new one when none was alive), whose next tick
   * reminds every configured number.
   */
  lemma ResetRearms(s: Sys)
    requires FlagsConsistent(s)
    ensures var t := AfterReset(s);
      && t.file == Some(Default()) && Load(t.file) == Default()
      && t.alive && !t.stop
      && AfterTick(t).attempts == s.attempts + Broadcast(ToNumbers, ReminderText)
  {
  }

  /** The scheduler's state in the running program, with the status file and the gateway. */
  class App {
    var file: Option<Record>
    /** `_scheduler_thread` exists and is alive. */
    var alive: bool
    /** `_scheduler_stop_event` is set. */
    var stopRequested: bool
    const gateway: Gateway

    function Abs(): Sys
      reads this, gateway
    {
      Sys(file, gateway.attempts, alive, stopRequested)
    }

    /** Module import: the status file as found, and the scheduler started at once. */
    constructor (stored: Option<Record>, gateway: Gateway)
      ensures this.gateway == gateway
      ensures Abs() == AfterStart(Sys(stored, gateway.attempts, false, false))
    {
      this.gateway := gateway;
      file := stored;
      alive := false;
      stopRequested := false;
      new;
      StartScheduler();
    }

    /** `load_status`: the stored record, or the empty one when the file is missing or unparseable. */
    method LoadStatus() returns (data: Record)
      ensures data == Load(file)
    {
      if file.None? {
        data := Record(map[], false);
      } else {
        data := file.value;
      }
    }

    /** `save_status`. */
    method SaveStatus(data: Record)
      modifies this`file
      ensures file == Some(data)
    {
      file := Some(data);
    }

    /** `send_message_to_all`: try every configured number once, in order; a refused send does not stop the loop. */
    method SendToAll(text: string)
      modifies gateway
      ensures gateway.attempts == old(gateway.attempts) + Broadcast(ToNumbers, text)
    {
      for i := 0 to |ToNumbers|
        invariant gateway.attempts == old(gateway.attempts) + Broadcast(ToNumbers[..i], text)
      {
        BroadcastSnoc(ToNumbers[..i], ToNumbers[i], text);
        assert ToNumbers[..i + 1] == ToNumbers[..i] + [ToNumbers[i]];
        var outcome := gateway.Send(FromNumber, ToNumbers[i], text);
        // A refused send is only logged.
      }
      assert ToNumbers[..|ToNumbers|] == ToNumbers;
    }

    /** `send_final_message`. */
    method SendFinalMessage()
      modifies gateway
      ensures gateway.attempts == old(gateway.attempts) + Broadcast(ToNumbers, ClosingText)
    {
      SendToAll(ClosingText);
    }

    /** `start_scheduler_background`. */
    method StartScheduler()
      modifies this
      ensures Abs() == AfterStart(old(Abs()))
    {
      if !alive {
        stopRequested := false;
        alive := true;
      }
    }

    /**
     * `stop_scheduler_background`: set the stop event. A scheduler is only ever waiting when a
     * request is served, so it wakes, leaves its loop and ends before `join` returns.
     */
    method StopScheduler()
      modifies this
      ensures Abs() == AfterStop(old(Abs()))
    {
      stopRequested := true;
      alive := false;
    }

    /** The handler of `POST /incoming`; it always answers "OK". */
    method Incoming(from: Option<string>, body: Option<string>) returns (reply: string)
      modifies this, gateway
      ensures Abs() == AfterIncoming(old(Abs()), from, body)
      ensures reply == "OK"
    {
      var sender := NormaliseSender(from);
      var text := NormaliseBody(body);
      var data := LoadStatus();
      ghost var stored := data;
      var responses := data.responses;
      responses := responses[sender := text];
      data := data.(responses := responses);
      if IsAffirmative(text) {
        data := data.(answered := true);
        assert data == Reconcile(stored, from, body);
        SaveStatus(data);
        SendFinalMessage();
        StopScheduler();
      } else {
        data := data.(answered := AnyAffirmative(responses));
        assert data == Reconcile(stored, from, body);
        SaveStatus(data);
      }
      reply := "OK";
    }

    /** The handler of `GET /send-test`. */
    method SendTest() returns (status: string)
      modifies gateway
      ensures Abs() == AfterSendTest(old(Abs()))
      ensures status == SendTestReply(old(Abs()))
    {
      var data := LoadStatus();
      if data.answered {
        return "already_answered";
      }
      SendToAll(ManualReminderText);
      status := "sent_manual";
    }

    /** The handler of `GET /reset-status`; it answers "reset". */
    method ResetStatus() returns (status: string)
      modifies this
      ensures Abs() == AfterReset(old(Abs()))
      ensures status == "reset"
    {
      SaveStatus(Record(map[], false));
      StartScheduler();
      status := "reset";
    }

    /** One request, dispatched to its handler; the replies go back to the caller and are dropped here. */
    method Serve(req: Request)
      modifies this, gateway
      ensures Abs() == AfterRequest(old(Abs()), req)
    {
      match req
      case IncomingReply(from, body) =>
        var _ := Incoming(from, body);
      case ManualSend =>
        var _ := SendTest();
      case Reset =>
        var _ := ResetStatus();
    }

    /**
     * `_scheduler_stop_event.wait(timeout)`: serve the requests that arrive while waiting,
     * until one of them sets the stop event; answer whether the event is set.
     */
    method Wait(reqs: seq<Request>) returns (completed: bool)
      modifies this, gateway
      ensures Abs() == AfterWait(old(Abs()), reqs)
      ensures completed == stopRequested
    {
      var j := 0;
      while j < |reqs| && !stopRequested
        invariant 0 <= j <= |reqs|
        invariant AfterWait(Abs(), reqs[j..]) == AfterWait(old(Abs()), reqs)
      {
        assert reqs[j..][1..] == reqs[j + 1..];
        Serve(reqs[j]);
        j := j + 1;
      }
      completed := stopRequested;
    }

    /** The body of `scheduler_loop` before its wait: remind everybody unless the record is answered. */
    method Tick()
      modifies gateway
      ensures Abs() == AfterTick(old(Abs()))
    {
      var data := LoadStatus();
      if !data.answered {
        SendToAll(ReminderText);
      }
    }

    /**
     * `scheduler_loop`, run by the live scheduler; `waits[i]` are the requests served during
     * the i-th wait, and a wait ends early exactly when the stop flag is up.
     */
    method SchedulerLoop(waits: seq<seq<Request>>)
      requires alive
      modifies this, gateway
      ensures Abs() == AfterRun(old(Abs()), waits)
    {
      var i := 0;
      while !stopRequested && i < |waits|
        invariant 0 <= i <= |waits|
        invariant AfterRun(Abs(), waits[i..]) == AfterRun(old(Abs()), waits)
      {
        Tick();
        assert waits[i..][1..] == waits[i + 1..];
        var completed := Wait(waits[i]);
        if completed {
          break;
        }
        i := i + 1;
      }
      if stopRequested {
        // The thread returns.
        alive := false;
      }
    }
  }
}
