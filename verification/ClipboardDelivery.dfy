/** Exactly when the clipboard loop delivers a secret, and exactly when it ends. */
module ClipboardDelivery {
  import opened Wrappers
  import opened Bytes
  import opened ClipboardModel
  import opened ClipboardSafety
  import opened ClipboardTheorems

  /** The ciphertexts delivered, in order. */
  function WritesOf(log: seq<Effect>): seq<Bytes> {
    if log == [] then []
    else
      WritesOf(log[..|log| - 1]) + if log[|log| - 1].Write? then [log[|log| - 1].ciphertext] else []
  }

  lemma WritesEmit(log: seq<Effect>, e: Effect)
    ensures WritesOf(log + [e]) == WritesOf(log) + if e.Write? then [e.ciphertext] else []
  {
    assert (log + [e])[..|log|] == log;
  }

  /** At most one effect, and not a delivery. */
  lemma QuietWrites(log: seq<Effect>, es: seq<Effect>)
    requires |es| <= 1 && (es != [] ==> !es[0].Write?)
    ensures WritesOf(log + es) == WritesOf(log)
  {
    if es == [] {
      assert log + es == log;
    } else {
      WritesEmit(log, es[0]);
      assert es == [es[0]];
    }
  }

  lemma TakeDownWrites(s: State)
    ensures WritesOf(TakeDown(s).log) == WritesOf(s.log)
  {
    QuietWrites(s.log, DestroyOf(s.source));
    QuietWrites(s.log + DestroyOf(s.source), SignalOf(s.doneTx));
  }

  lemma AbortWrites(s: State)
    ensures WritesOf(Abort(s).log) == WritesOf(s.log)
  {
    QuietWrites(s.log, AbandonOf(s.source));
    QuietWrites(s.log + AbandonOf(s.source), DropOf(s.doneTx));
  }

  lemma SetSelectionWrites(s: State, ciphertext: Bytes, done: Option<Sender>)
    ensures WritesOf(SetSelection(s, ciphertext, done).log) == WritesOf(s.log)
  {
    var e := Publish(s.created, ciphertext, done);
    QuietWrites(s.log, DestroyOf(s.source));
    WritesEmit(s.log + DestroyOf(s.source), e);
    QuietWrites(s.log + DestroyOf(s.source) + [e], DropOf(s.doneTx));
  }

  lemma {:induction false} PublishAllWrites(s: State, holds: seq<Job>)
    requires forall j <- holds :: j.Hold?
    ensures WritesOf(PublishAll(s, holds).log) == WritesOf(s.log)
  {
    if holds != [] {
      var last := holds[|holds| - 1];
      assert forall j <- holds[..|holds| - 1] :: j in holds;
      PublishAllWrites(s, holds[..|holds| - 1]);
      SetSelectionWrites(PublishAll(s, holds[..|holds| - 1]), last.ciphertext, last.done);
    }
  }

  // ---------------------------------------------------------------------
  // Deliveries.

  predicate TextRead(e: Event) {
    e.Send? && IsTextMime(e.mime)
  }

  /** A read as text or a cancellation uses a selection up. */
  predicate Ends(e: Event) {
    TextRead(e) || e.Cancelled?
  }

  /** The first event of a batch that does. */
  function FirstEnding(events: seq<Event>): Option<Event> {
    if events == [] then None
    else
      var before, last := FirstEnding(events[..|events| - 1]), events[|events| - 1];
      if before.Some? then before else if Ends(last) then Some(last) else None
  }

  /** What a batch of events delivers from this state. */
  function Delivery(s: State, events: seq<Event>): seq<Bytes> {
    var first := FirstEnding(events);
    if Unread(s) && first.Some? && TextRead(first.value) then [s.held.value] else []
  }

  lemma EventDelivers(s: State, e: Event)
    requires Coherent(s)
    ensures var d := OnEvent(s, e);
            && WritesOf(d.log) == WritesOf(s.log) + (if Unread(s) && TextRead(e) then [s.held.value] else [])
            && (Unread(d) <==> Unread(s) && !Ends(e))
            && (Unread(d) ==> d.held == s.held)
  {
    if e.Cancelled? {
      TakeDownWrites(s);
    } else if e.Send? {
      WritesEmit(s.log, EmptyRead);
      if s.held.Some? {
        WritesEmit(s.log, Write(s.held.value));
      }
    }
  }

  lemma EventCoherent(s: State, e: Event)
    requires Coherent(s)
    ensures Coherent(OnEvent(s, e))
  {
  }

  /** A batch delivers the secret, once, exactly when it is unread and a reader
      asks for text before the selection is cancelled. */
  lemma {:induction false} DispatchDelivers(s: State, events: seq<Event>)
    requires Coherent(s)
    ensures var d := Dispatch(s, events);
            && Coherent(d)
            && WritesOf(d.log) == WritesOf(s.log) + Delivery(s, events)
            && (Unread(d) <==> Unread(s) && FirstEnding(events).None?)
            && (Unread(d) ==> d.held == s.held)
  {
    if events != [] {
      var before, last := events[..|events| - 1], events[|events| - 1];
      DispatchDelivers(s, before);
      EventDelivers(Dispatch(s, before), last);
      EventCoherent(Dispatch(s, before), last);
    }
  }

  lemma EndTurnWrites(d: State, t: Turn)
    ensures WritesOf(EndTurn(d, t).log) == WritesOf(d.log)
  {
    if !t.flushOk {
      AbortWrites(d);
    } else if !d.running {
      TakeDownWrites(d);
    } else if t.readReady {
      QuietWrites(d.log, [Poll(Timeout(d))]);
      AbortWrites(d.(log := d.log + [Poll(Timeout(d))]));
    }
  }

  /** So it is in every iteration of every run: nothing else ever delivers. */
  lemma IterationDelivers(turns: seq<Turn>, t: Turn)
    requires Run(turns).phase.Looping?
    ensures WritesOf(Iterate(Run(turns), t).log) == WritesOf(Run(turns).log) + Delivery(Run(turns), t.events)
  {
    var s := Run(turns);
    RunKeeps(turns);
    var started := s.(pendingDestroy := false);
    var d := Dispatch(started, t.events);
    DispatchDelivers(started, t.events);
    AbortWrites(d);
    TakenAreHolds(t.jobs);
    PublishAllWrites(d, Taken(t.jobs));
    TakeDownWrites(BeforeDestroyPass(s, t));
    EndTurnWrites(AfterDestroyPass(s, t), t);
  }

  /** A copy that is drained is up and unread for the next batch, unless the
      destroy pass or the end of the loop takes it down. */
  lemma DrainedHoldIsUp(turns: seq<Turn>, t: Turn)
    requires var s := Run(turns); s.phase.Looping? && !s.pendingDestroy
    requires Taken(t.jobs) != [] && Iterate(Run(turns), t).phase.Looping?
    ensures var after := Iterate(Run(turns), t); var last := Taken(t.jobs)[|Taken(t.jobs)| - 1];
            && last.Hold?
            && Unread(after) && after.held == Some(last.ciphertext) && after.doneTx == last.done
  {
    var s := Run(turns);
    TakenAreHolds(t.jobs);
    assert Taken(t.jobs)[|Taken(t.jobs)| - 1] in Taken(t.jobs);
    PublishAllFacts(Dispatch(s.(pendingDestroy := false), t.events), Taken(t.jobs));
  }

  // ---------------------------------------------------------------------
  // The end of the loop.

  lemma BeforeDestroyPassRuns(turns: seq<Turn>, t: Turn)
    requires Run(turns).phase.Looping?
    ensures var d := BeforeDestroyPass(Run(turns), t);
            d.phase.Looping? && (d.running <==> Shutdown !in t.jobs && !t.disconnected)
  {
    var s := Run(turns);
    RunKeeps(turns);
    RunBoundary(turns);
    DispatchFacts(s.(pendingDestroy := false), t.events);
    TakenAreHolds(t.jobs);
    PublishAllFacts(Dispatch(s.(pendingDestroy := false), t.events), Taken(t.jobs));
  }

  /** An iteration ends the loop exactly when it drains a Shutdown, finds the
      channel closed, or fails. */
  lemma LoopEnds(turns: seq<Turn>, t: Turn)
    requires Run(turns).phase.Looping?
    ensures var after := Iterate(Run(turns), t); var told := Shutdown in t.jobs || t.disconnected;
            && (after.phase.Exited? <==> t.dispatchOk && t.flushOk && told)
            && (after.phase.Aborted? <==>
                  !t.dispatchOk || !t.flushOk || (!told && t.readReady && t.poll.PollFailed?))
  {
    BeforeDestroyPassRuns(turns, t);
  }
}
