/** The clipboard loop as it runs: fields updated in place, step by step, and
    proved to follow the state machine of ClipboardModel. */
module ClipboardLoop {
  import opened Wrappers
  import opened Bytes
  import opened ClipboardModel
  import ClipboardTheorems

  class Loop {
    var running: bool
    var source: Option<nat>
    var held: Option<Bytes>
    var doneTx: Option<Sender>
    var consumed: bool
    var pendingDestroy: bool

    // Where the loop stands, what the compositor numbers next, what was done.
    var phase: Phase
    var created: nat
    var log: seq<Effect>

    ghost function View(): State
      reads this
    {
      State(phase, running, source, held, doneTx, consumed, pendingDestroy, created, log)
    }

    constructor ()
      ensures View() == Initial
    {
      running, source, held, doneTx := true, None, None, None;
      consumed, pendingDestroy := false, false;
      phase, created, log := Looping, 0, [];
    }

    method DestroySource()
      modifies this`source, this`log
      ensures source == None && log == old(log) + DestroyOf(old(source))
    {
      if source.Some? {
        log := log + [Destroy(source.value)];
        source := None;
      }
    }

    method SignalDone()
      modifies this`doneTx, this`log
      ensures doneTx == None && log == old(log) + SignalOf(old(doneTx))
    {
      if doneTx.Some? {
        log := log + [Signal(doneTx.value)];
        doneTx := None;
      }
    }

    /** `set_selection`; assigning the sender drops the one it replaces. */
    method SetSelection(ciphertext: Bytes, done: Option<Sender>)
      modifies this
      ensures View() == ClipboardModel.SetSelection(old(View()), ciphertext, done)
    {
      DestroySource();
      var id := created;
      created := created + 1;
      log := log + [Publish(id, ciphertext, done)];
      source := Some(id);
      held := Some(ciphertext);
      log := log + DropOf(doneTx);
      doneTx := done;
      pendingDestroy := false;
      consumed := false;
    }

    /** The event handler of the data source. */
    method HandleEvent(e: Event)
      modifies this
      ensures View() == OnEvent(old(View()), e)
    {
      match e
      case Send(mime) =>
        if !IsTextMime(mime) {
          log := log + [EmptyRead];
          return;
        }
        if consumed {
          log := log + [EmptyRead];
          return;
        }
        if held.Some? {
          log := log + [Write(held.value)];
          consumed := true;
          pendingDestroy := true;
        } else {
          log := log + [EmptyRead];
        }
      case Cancelled =>
        DestroySource();
        held := None;
        SignalDone();
      case OtherEvent =>
    }

    method DispatchPending(events: seq<Event>)
      modifies this
      ensures View() == Dispatch(old(View()), events)
    {
      var i := 0;
      while i < |events|
        invariant 0 <= i <= |events|
        invariant View() == Dispatch(old(View()), events[..i])
      {
        HandleEvent(events[i]);
        i := i + 1;
        assert events[..i][..i - 1] == events[..i - 1];
      }
      assert events[..i] == events;
    }

    /** The drain: Holds are served until the channel is empty or a Shutdown
        comes out. */
    method DrainJobs(jobs: seq<Job>, disconnected: bool)
      modifies this
      ensures View() == Drain(old(View()), jobs, disconnected)
    {
      var i := 0;
      TakenAreHolds(jobs);
      while i < |jobs| && jobs[i].Hold?
        invariant 0 <= i <= |jobs|
        invariant forall j <- jobs[..i] :: j.Hold?
        invariant View() == PublishAll(old(View()), jobs[..i])
      {
        SetSelection(jobs[i].ciphertext, jobs[i].done);
        i := i + 1;
        assert jobs[..i][..i - 1] == jobs[..i - 1];
      }
      TakenIsPrefix(jobs, i);
      PublishAllRunning(old(View()), jobs[..i]);
      if i < |jobs| || disconnected {
        running := false;
      }
    }

    method LeaveWithError()
      modifies this
      ensures View() == Abort(old(View()))
    {
      log := log + AbandonOf(source) + DropOf(doneTx);
      source, held, doneTx := None, None, None;
      phase := Aborted;
    }

    /** An iteration from the drain to the destroy pass. */
    method DrainAndDestroy(t: Turn, shouldDestroy: bool)
      modifies this
      ensures var d := Drain(old(View()), t.jobs, t.disconnected);
              View() == if shouldDestroy then TakeDown(d) else d
    {
      DrainJobs(t.jobs, t.disconnected);
      if shouldDestroy {
        held := None;
        DestroySource();
        SignalDone();
      }
    }

    /** An iteration from the flush on, with what follows the loop. */
    method FlushAndPoll(t: Turn)
      modifies this
      ensures View() == EndTurn(old(View()), t)
    {
      if !t.flushOk {
        LeaveWithError();
        return;
      }
      if !running {
        DestroySource();
        held := None;
        SignalDone();
        phase := Exited;
        return;
      }
      if !t.readReady {
        return;
      }
      var timeout := if pendingDestroy then PASTE_ONCE_POLL_MS else -1;
      log := log + [Poll(timeout)];
      if t.poll.PollFailed? {
        LeaveWithError();
      }
    }

    method RunTurn(t: Turn)
      modifies this
      ensures View() == Iterate(old(View()), t)
    {
      var shouldDestroy := pendingDestroy;
      pendingDestroy := false;
      DispatchPending(t.events);
      if !t.dispatchOk {
        LeaveWithError();
        return;
      }
      DrainAndDestroy(t, shouldDestroy);
      FlushAndPoll(t);
    }

    /** `run_clipboard_loop` over any environment.  Once the loop has ended all
        it took is settled. */
    method RunLoop(turns: seq<Turn>)
      requires View() == Initial
      modifies this
      ensures View() == Run(turns)
      ensures phase != Looping ==> source.None? && held.None? && doneTx.None?
    {
      var i := 0;
      while i < |turns| && phase == Looping
        invariant 0 <= i <= |turns|
        invariant View() == Run(turns[..i])
      {
        RunTurn(turns[i]);
        i := i + 1;
        assert turns[..i][..i - 1] == turns[..i - 1];
      }
      EndedRunStays(turns, i);
      if phase != Looping {
        ClipboardTheorems.NothingLeftAfterEnd(turns);
      }
    }
  }

  lemma {:induction false} TakenIsPrefix(jobs: seq<Job>, n: nat)
    requires n <= |jobs|
    requires forall j <- jobs[..n] :: j.Hold?
    requires n == |jobs| || jobs[n].Shutdown?
    ensures Taken(jobs) == jobs[..n]
    ensures Shutdown in jobs <==> n < |jobs|
  {
    if n > 0 {
      assert jobs[0] in jobs[..n];
      assert jobs[..n] == [jobs[0]] + jobs[1..][..n - 1];
      assert jobs[1..][..n - 1] == jobs[..n][1..];
      TakenIsPrefix(jobs[1..], n - 1);
      assert jobs == [jobs[0]] + jobs[1..];
    }
  }

  lemma PublishAllRunning(s: State, holds: seq<Job>)
    requires forall j <- holds :: j.Hold?
    ensures PublishAll(s, holds).running == s.running
  {
    if holds != [] {
      assert forall j <- holds[..|holds| - 1] :: j in holds;
      PublishAllRunning(s, holds[..|holds| - 1]);
    }
  }

  lemma EndedRunStays(turns: seq<Turn>, n: nat)
    requires n <= |turns|
    requires n == |turns| || !Run(turns[..n]).phase.Looping?
    ensures Run(turns) == Run(turns[..n])
    decreases |turns|
  {
    if n == |turns| {
      assert turns[..n] == turns;
    } else {
      var before := turns[..|turns| - 1];
      assert before[..n] == turns[..n];
      EndedRunStays(before, n);
    }
  }
}
