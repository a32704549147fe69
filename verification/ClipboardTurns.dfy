/** What one iteration of the clipboard loop changes and what it leaves alone,
    in every run. */
module ClipboardTurns {
  import opened Wrappers
  import opened Bytes
  import opened ClipboardModel
  import opened ClipboardSafety
  import opened ClipboardDelivery

  // ---------------------------------------------------------------------
  // The state after an iteration.

  predicate Cancels(events: seq<Event>) {
    exists e <- events :: e.Cancelled?
  }

  /** The selection that is up: its source, its ciphertext, its sender. */
  datatype Selection = Selection(source: Option<nat>, held: Option<Bytes>, doneTx: Option<Sender>)

  const Nothing := Selection(None, None, None)

  function SelectionOf(s: State): Selection {
    Selection(s.source, s.held, s.doneTx)
  }

  lemma CancelsSnoc(before: seq<Event>, last: Event)
    ensures Cancels(before + [last]) <==> Cancels(before) || last.Cancelled?
  {
    assert forall e :: e in before + [last] <==> e in before || e == last;
  }

  lemma {:induction false} DispatchState(s: State, events: seq<Event>)
    requires Coherent(s)
    ensures var d := Dispatch(s, events); var delivered := Delivery(s, events) != [];
            && SelectionOf(d) == (if Cancels(events) then Nothing else SelectionOf(s))
            && d.consumed == (s.consumed || delivered)
            && d.pendingDestroy == (s.pendingDestroy || delivered)
            && d.created == s.created
  {
    if events != [] {
      var before, last := events[..|events| - 1], events[|events| - 1];
      assert events == before + [last];
      CancelsSnoc(before, last);
      DispatchState(s, before);
      DispatchDelivers(s, before);
    } else {
      assert Cancels(events) <==> false;
      NothingUp(s);
    }
  }

  lemma NothingUp(s: State)
    requires Coherent(s)
    ensures s.source.None? ==> SelectionOf(s) == Nothing
  {
  }

  lemma {:induction false} PublishAllState(s: State, holds: seq<Job>)
    requires forall j <- holds :: j.Hold?
    ensures var d := PublishAll(s, holds);
            && d.created == s.created + |holds|
            && (holds == [] ==> d == s)
            && (holds != [] ==>
                  var last := holds[|holds| - 1];
                  && SelectionOf(d) == Selection(Some(s.created + |holds| - 1), Some(last.ciphertext), last.done)
                  && !d.consumed && !d.pendingDestroy)
  {
    if holds != [] {
      assert forall j <- holds[..|holds| - 1] :: j in holds;
      PublishAllState(s, holds[..|holds| - 1]);
    }
  }

  /** What is up after an iteration that does not end the loop. */
  function SelectionAfter(s: State, t: Turn): Selection {
    TakenAreHolds(t.jobs);
    var taken := Taken(t.jobs);
    if s.pendingDestroy then Nothing
    else if taken != [] then
      var last := taken[|taken| - 1];
      assert last in taken;
      Selection(Some(s.created + |taken| - 1), Some(last.ciphertext), last.done)
    else if Cancels(t.events) then Nothing
    else SelectionOf(s)
  }

  /** The flags and the number of the next selection. */
  datatype Flags = Flags(consumed: bool, pendingDestroy: bool, created: nat)

  function FlagsOf(s: State): Flags {
    Flags(s.consumed, s.pendingDestroy, s.created)
  }

  function FlagsAfter(s: State, t: Turn): Flags {
    var taken, delivered := Taken(t.jobs), Delivery(s, t.events) != [];
    Flags(taken == [] && (s.consumed || delivered), taken == [] && delivered, s.created + |taken|)
  }

  lemma BeforePassState(s: State, t: Turn)
    requires Coherent(s)
    ensures SelectionOf(BeforeDestroyPass(s, t)) == SelectionAfter(s.(pendingDestroy := false), t)
    ensures FlagsOf(BeforeDestroyPass(s, t)) == FlagsAfter(s, t)
  {
    TakenAreHolds(t.jobs);
    var started := s.(pendingDestroy := false);
    DispatchState(started, t.events);
    PublishAllState(Dispatch(started, t.events), Taken(t.jobs));
  }

  lemma EndTurnState(d: State, t: Turn)
    requires EndTurn(d, t).phase.Looping?
    ensures SelectionOf(EndTurn(d, t)) == SelectionOf(d) && FlagsOf(EndTurn(d, t)) == FlagsOf(d)
    ensures EndTurn(d, t).running
  {
  }

  /** The whole state after an iteration of any run that goes on: a scheduled pass
      takes everything down; otherwise the last Hold taken is up, or what was up
      before unless it was cancelled.  A pass is scheduled for the next iteration
      exactly when the secret was delivered in this one and not replaced since. */
  lemma IterationState(turns: seq<Turn>, t: Turn)
    requires Run(turns).phase.Looping? && Iterate(Run(turns), t).phase.Looping?
    ensures var s, after := Run(turns), Iterate(Run(turns), t);
            && SelectionOf(after) == SelectionAfter(s, t)
            && FlagsOf(after) == FlagsAfter(s, t)
            && after.running
  {
    RunKeeps(turns);
    BeforePassState(Run(turns), t);
    EndTurnState(AfterDestroyPass(Run(turns), t), t);
  }

  /** An unread copy lives through every iteration that brings no read of it, no
      cancellation and no new copy: only these, and the end of the loop, take it
      down. */
  lemma UnreadStays(turns: seq<Turn>, t: Turn)
    requires Run(turns).phase.Looping? && Unread(Run(turns))
    requires FirstEnding(t.events).None? && Taken(t.jobs) == []
    requires Iterate(Run(turns), t).phase.Looping?
    ensures var s, after := Run(turns), Iterate(Run(turns), t);
            Unread(after) && SelectionOf(after) == SelectionOf(s)
  {
    RunKeeps(turns);
    IterationState(turns, t);
    NothingEnds(t.events);
  }

  lemma {:induction false} NothingEnds(events: seq<Event>)
    requires FirstEnding(events).None?
    ensures !Cancels(events)
  {
    if events != [] {
      NothingEnds(events[..|events| - 1]);
      assert events == events[..|events| - 1] + [events[|events| - 1]];
      CancelsSnoc(events[..|events| - 1], events[|events| - 1]);
    }
  }

  // ---------------------------------------------------------------------
  // Effects of one kind.

  /** The effects of a log that are of one kind, in order. */
  function Select(log: seq<Effect>, kind: Effect -> bool): seq<Effect> {
    if log == [] then []
    else Select(log[..|log| - 1], kind) + if kind(log[|log| - 1]) then [log[|log| - 1]] else []
  }

  lemma {:induction false} SelectConcat(a: seq<Effect>, b: seq<Effect>, kind: Effect -> bool)
    ensures Select(a + b, kind) == Select(a, kind) + Select(b, kind)
  {
    if b == [] {
      assert a + b == a;
    } else {
      assert (a + b)[..|a + b| - 1] == a + b[..|b| - 1];
      SelectConcat(a, b[..|b| - 1], kind);
    }
  }

  lemma SelectOne(e: Effect, kind: Effect -> bool)
    ensures Select([e], kind) == if kind(e) then [e] else []
  {
    assert [e][..0] == [];
    assert Select([e][..0], kind) == [];
  }

  predicate IsPoll(e: Effect) {
    e.Poll?
  }

  predicate IsSignal(e: Effect) {
    e.Signal?
  }

  /** A reader gets an answer: the secret, or nothing at all. */
  predicate IsAnswer(e: Effect) {
    e.Write? || e.EmptyRead?
  }

  /** At most one effect, of another kind. */
  lemma SelectQuiet(log: seq<Effect>, es: seq<Effect>, kind: Effect -> bool)
    requires |es| <= 1 && (es != [] ==> !kind(es[0]))
    ensures Select(log + es, kind) == Select(log, kind)
  {
    SelectConcat(log, es, kind);
    if es != [] {
      assert es == [es[0]];
      SelectOne(es[0], kind);
    }
  }

  lemma SelectEmit(log: seq<Effect>, e: Effect, kind: Effect -> bool)
    ensures Select(log + [e], kind) == Select(log, kind) + if kind(e) then [e] else []
  {
    SelectConcat(log, [e], kind);
    SelectOne(e, kind);
  }

  /** A kind that has nothing to do with putting selections up or down. */
  ghost predicate Unrelated(kind: Effect -> bool) {
    forall e: Effect :: kind(e) ==> !e.Publish? && !e.Destroy? && !e.Abandon? && !e.Drop?
  }

  lemma TakeDownSelect(s: State, kind: Effect -> bool)
    requires Unrelated(kind)
    ensures Select(TakeDown(s).log, kind) == Select(s.log, kind) + Select(SignalOf(s.doneTx), kind)
  {
    SelectQuiet(s.log, DestroyOf(s.source), kind);
    SelectConcat(s.log + DestroyOf(s.source), SignalOf(s.doneTx), kind);
  }

  lemma AbortSelect(s: State, kind: Effect -> bool)
    requires Unrelated(kind)
    ensures Select(Abort(s).log, kind) == Select(s.log, kind)
  {
    SelectQuiet(s.log, AbandonOf(s.source), kind);
    SelectQuiet(s.log + AbandonOf(s.source), DropOf(s.doneTx), kind);
  }

  lemma DestroySelect(log: seq<Effect>, source: Option<nat>, kind: Effect -> bool)
    requires Unrelated(kind)
    ensures Select(log + DestroyOf(source), kind) == Select(log, kind)
  {
    SelectQuiet(log, DestroyOf(source), kind);
  }

  lemma DropSelect(log: seq<Effect>, sender: Option<Sender>, kind: Effect -> bool)
    requires Unrelated(kind)
    ensures Select(log + DropOf(sender), kind) == Select(log, kind)
  {
    SelectQuiet(log, DropOf(sender), kind);
  }

  lemma PublishSelect(log: seq<Effect>, e: Effect, kind: Effect -> bool)
    requires Unrelated(kind) && e.Publish?
    ensures Select(log + [e], kind) == Select(log, kind)
  {
    SelectEmit(log, e, kind);
  }

  lemma SetSelectionSelect(s: State, ciphertext: Bytes, done: Option<Sender>, kind: Effect -> bool)
    requires Unrelated(kind)
    ensures Select(SetSelection(s, ciphertext, done).log, kind) == Select(s.log, kind)
  {
    var e := Publish(s.created, ciphertext, done);
    var destroyed := s.log + DestroyOf(s.source);
    DestroySelect(s.log, s.source, kind);
    PublishSelect(destroyed, e, kind);
    DropSelect(destroyed + [e], s.doneTx, kind);
  }

  lemma {:induction false} PublishAllSelect(s: State, holds: seq<Job>, kind: Effect -> bool)
    requires forall j <- holds :: j.Hold?
    requires Unrelated(kind)
    ensures Select(PublishAll(s, holds).log, kind) == Select(s.log, kind)
  {
    if holds != [] {
      var before, last := holds[..|holds| - 1], holds[|holds| - 1];
      assert forall j <- before :: j in holds;
      PublishAllSelect(s, before, kind);
      SetSelectionSelect(PublishAll(s, before), last.ciphertext, last.done, kind);
    }
  }

  // ---------------------------------------------------------------------
  // Polls.

  lemma NoSignalIsPoll(sender: Option<Sender>)
    ensures Select(SignalOf(sender), IsPoll) == []
    ensures Select(SignalOf(sender), IsAnswer) == []
  {
    SelectQuiet([], SignalOf(sender), IsPoll);
    SelectQuiet([], SignalOf(sender), IsAnswer);
    assert [] + SignalOf(sender) == SignalOf(sender);
  }

  /** What an event other than a cancellation adds to the log: one answer to a
      read, or nothing. */
  lemma EventAnswers(s: State, e: Event) returns (answer: seq<Effect>)
    requires !e.Cancelled?
    ensures OnEvent(s, e).log == s.log + answer
    ensures |answer| == (if e.Send? then 1 else 0) && (answer != [] ==> IsAnswer(answer[0]))
  {
    if !e.Send? {
      answer := [];
    } else if !IsTextMime(e.mime) || s.consumed || s.held.None? {
      answer := [EmptyRead];
    } else {
      answer := [Write(s.held.value)];
    }
  }

  lemma {:induction false} DispatchPolls(s: State, events: seq<Event>)
    ensures Select(Dispatch(s, events).log, IsPoll) == Select(s.log, IsPoll)
  {
    if events != [] {
      var d, e := Dispatch(s, events[..|events| - 1]), events[|events| - 1];
      DispatchPolls(s, events[..|events| - 1]);
      if e.Cancelled? {
        TakeDownSelect(d, IsPoll);
        NoSignalIsPoll(d.doneTx);
      } else {
        var answer := EventAnswers(d, e);
        SelectQuiet(d.log, answer, IsPoll);
      }
    }
  }

  /** Whether an iteration gets as far as its poll. */
  predicate Polls(t: Turn) {
    t.dispatchOk && t.flushOk && Shutdown !in t.jobs && !t.disconnected && t.readReady
  }

  /** The effects of an iteration up to the destroy pass. */
  lemma PassSelect(s: State, t: Turn, kind: Effect -> bool)
    requires Unrelated(kind)
    ensures var d, dispatched := BeforeDestroyPass(s, t), Dispatch(s.(pendingDestroy := false), t.events);
            && Select(Abort(dispatched).log, kind) == Select(dispatched.log, kind)
            && Select(AfterDestroyPass(s, t).log, kind) ==
               Select(dispatched.log, kind) + if s.pendingDestroy then Select(SignalOf(d.doneTx), kind) else []
  {
    var dispatched := Dispatch(s.(pendingDestroy := false), t.events);
    AbortSelect(dispatched, kind);
    TakenAreHolds(t.jobs);
    PublishAllSelect(dispatched, Taken(t.jobs), kind);
    TakeDownSelect(BeforeDestroyPass(s, t), kind);
  }

  lemma EndTurnPolls(d: State, t: Turn)
    ensures Select(EndTurn(d, t).log, IsPoll) ==
            Select(d.log, IsPoll) + if t.flushOk && d.running && t.readReady then [Poll(Timeout(d))] else []
  {
    if !t.flushOk {
      AbortSelect(d, IsPoll);
    } else if !d.running {
      TakeDownSelect(d, IsPoll);
      NoSignalIsPoll(d.doneTx);
    } else if t.readReady {
      SelectEmit(d.log, Poll(Timeout(d)), IsPoll);
      AbortSelect(d.(log := d.log + [Poll(Timeout(d))]), IsPoll);
    }
  }

  /** Every iteration that gets that far polls once: for 200 milliseconds if the
      secret was delivered in this iteration and not replaced since, and without
      a bound otherwise. */
  lemma IterationPolls(turns: seq<Turn>, t: Turn)
    requires Run(turns).phase.Looping?
    ensures var s := Run(turns);
            Select(Iterate(s, t).log, IsPoll) ==
            Select(s.log, IsPoll) +
            if !Polls(t) then []
            else if Delivery(s, t.events) != [] && Taken(t.jobs) == [] then [Poll(200)]
            else [Poll(-1)]
  {
    var s := Run(turns);
    RunKeeps(turns);
    DispatchPolls(s.(pendingDestroy := false), t.events);
    PassSelect(s, t, IsPoll);
    NoSignalIsPoll(BeforeDestroyPass(s, t).doneTx);
    BeforePassState(s, t);
    EndTurnPolls(AfterDestroyPass(s, t), t);
    BeforeDestroyPassRuns(turns, t);
  }

  // ---------------------------------------------------------------------
  // Signals.

  lemma SignalsOne(sender: Option<Sender>)
    ensures Select(SignalOf(sender), IsSignal) == SignalOf(sender)
  {
    if sender.Some? {
      SelectOne(Signal(sender.value), IsSignal);
    }
  }

  lemma TakeDownSignals(s: State)
    ensures Select(TakeDown(s).log, IsSignal) == Select(s.log, IsSignal) + SignalOf(s.doneTx)
  {
    TakeDownSelect(s, IsSignal);
    SignalsOne(s.doneTx);
  }

  /** Who is told by a batch of events. */
  function ToldByEvents(s: State, events: seq<Event>): seq<Effect> {
    if Cancels(events) then SignalOf(s.doneTx) else []
  }

  lemma {:induction false} DispatchSignals(s: State, events: seq<Event>)
    requires Coherent(s)
    ensures Select(Dispatch(s, events).log, IsSignal) == Select(s.log, IsSignal) + ToldByEvents(s, events)
  {
    if events != [] {
      var before, e := events[..|events| - 1], events[|events| - 1];
      var d := Dispatch(s, before);
      assert events == before + [e];
      CancelsSnoc(before, e);
      DispatchSignals(s, before);
      DispatchState(s, before);
      if e.Cancelled? {
        TakeDownSignals(d);
      } else {
        var answer := EventAnswers(d, e);
        SelectQuiet(d.log, answer, IsSignal);
      }
    }
  }

  lemma EndTurnSignals(d: State, t: Turn)
    ensures Select(EndTurn(d, t).log, IsSignal) ==
            Select(d.log, IsSignal) + if t.flushOk && !d.running then SignalOf(d.doneTx) else []
  {
    if !t.flushOk {
      AbortSelect(d, IsSignal);
    } else if !d.running {
      TakeDownSignals(d);
    } else if t.readReady {
      SelectQuiet(d.log, [Poll(Timeout(d))], IsSignal);
      AbortSelect(d.(log := d.log + [Poll(Timeout(d))]), IsSignal);
    }
  }

  /** Who waits for the selection that is up after the drain. */
  function WaitingAfterDrain(s: State, t: Turn): Option<Sender> {
    SelectionAfter(s.(pendingDestroy := false), t).doneTx
  }

  lemma TellOnce(pass: bool, ends: bool, sender: Option<Sender>)
    ensures (if pass then SignalOf(sender) else []) + (if ends then SignalOf(if pass then None else sender) else [])
            == if pass || ends then SignalOf(sender) else []
  {
  }

  /** After the dispatch, whoever waits after the drain is told by the pass or by
      the end of the loop. */
  lemma DrainedIsTold(s: State, t: Turn)
    requires t.dispatchOk
    ensures var dispatched, d := Dispatch(s.(pendingDestroy := false), t.events), BeforeDestroyPass(s, t);
            Select(Iterate(s, t).log, IsSignal) ==
            Select(dispatched.log, IsSignal) +
            if s.pendingDestroy || (t.flushOk && !d.running) then SignalOf(d.doneTx) else []
  {
    var d := BeforeDestroyPass(s, t);
    var a := Select(Dispatch(s.(pendingDestroy := false), t.events).log, IsSignal);
    PassSelect(s, t, IsSignal);
    SignalsOne(d.doneTx);
    EndTurnSignals(AfterDestroyPass(s, t), t);
    TellOnce(s.pendingDestroy, t.flushOk && !d.running, d.doneTx);
    Regroup(a, if s.pendingDestroy then SignalOf(d.doneTx) else [],
            if t.flushOk && !d.running then SignalOf(if s.pendingDestroy then None else d.doneTx) else []);
  }

  lemma Regroup(a: seq<Effect>, b: seq<Effect>, c: seq<Effect>)
    ensures a + b + c == a + (b + c)
  {
  }

  /** Who is told after the dispatch. */
  function ToldAfterDrain(s: State, t: Turn): seq<Effect> {
    var ends := t.flushOk && (Shutdown in t.jobs || t.disconnected);
    if t.dispatchOk && (s.pendingDestroy || ends) then SignalOf(WaitingAfterDrain(s, t)) else []
  }

  lemma DispatchedIsTold(turns: seq<Turn>, t: Turn)
    requires Run(turns).phase.Looping?
    ensures var s := Run(turns);
            Select(Iterate(s, t).log, IsSignal) ==
            Select(Dispatch(s.(pendingDestroy := false), t.events).log, IsSignal) + ToldAfterDrain(s, t)
  {
    var s := Run(turns);
    RunKeeps(turns);
    if t.dispatchOk {
      BeforePassState(s, t);
      BeforeDestroyPassRuns(turns, t);
      DrainedIsTold(s, t);
    } else {
      AbortSelect(Dispatch(s.(pendingDestroy := false), t.events), IsSignal);
    }
  }

  /** Exactly who is told that a copy is done, in every iteration of every run: a
      cancellation tells whoever waited before, and the scheduled pass or the end
      of the loop tells whoever waits after the drain. */
  lemma IterationSignals(turns: seq<Turn>, t: Turn)
    requires Run(turns).phase.Looping?
    ensures var s := Run(turns);
            Select(Iterate(s, t).log, IsSignal) ==
            Select(s.log, IsSignal) + ToldByEvents(s, t.events) + ToldAfterDrain(s, t)
  {
    var s := Run(turns);
    RunKeeps(turns);
    DispatchSignals(s.(pendingDestroy := false), t.events);
    DispatchedIsTold(turns, t);
  }

  // ---------------------------------------------------------------------
  // Answers.

  function SendsOf(events: seq<Event>): nat {
    if events == [] then 0
    else SendsOf(events[..|events| - 1]) + if events[|events| - 1].Send? then 1 else 0
  }

  lemma {:induction false} DispatchAnswers(s: State, events: seq<Event>)
    ensures |Select(Dispatch(s, events).log, IsAnswer)| == |Select(s.log, IsAnswer)| + SendsOf(events)
  {
    if events != [] {
      var d, e := Dispatch(s, events[..|events| - 1]), events[|events| - 1];
      DispatchAnswers(s, events[..|events| - 1]);
      if e.Cancelled? {
        TakeDownSelect(d, IsAnswer);
        NoSignalIsPoll(d.doneTx);
      } else {
        var answer := EventAnswers(d, e);
        SelectConcat(d.log, answer, IsAnswer);
        if e.Send? {
          assert answer == [answer[0]];
          SelectOne(answer[0], IsAnswer);
        }
      }
    }
  }

  /** Every reader is answered, once: its pipe gets the secret or is closed empty. */
  lemma IterationAnswers(turns: seq<Turn>, t: Turn)
    requires Run(turns).phase.Looping?
    ensures var s := Run(turns);
            |Select(Iterate(s, t).log, IsAnswer)| == |Select(s.log, IsAnswer)| + SendsOf(t.events)
  {
    var s := Run(turns);
    DispatchAnswers(s.(pendingDestroy := false), t.events);
    PassSelect(s, t, IsAnswer);
    NoSignalIsPoll(BeforeDestroyPass(s, t).doneTx);
    EndTurnAnswers(AfterDestroyPass(s, t), t);
  }

  lemma EndTurnAnswers(d: State, t: Turn)
    ensures Select(EndTurn(d, t).log, IsAnswer) == Select(d.log, IsAnswer)
  {
    if !t.flushOk {
      AbortSelect(d, IsAnswer);
    } else if !d.running {
      TakeDownSelect(d, IsAnswer);
      NoSignalIsPoll(d.doneTx);
    } else if t.readReady {
      SelectQuiet(d.log, [Poll(Timeout(d))], IsAnswer);
      AbortSelect(d.(log := d.log + [Poll(Timeout(d))]), IsAnswer);
    }
  }

  // ---------------------------------------------------------------------
  // Which reads are for text.

  /** Both types that are offered are served; an image and a page are not. */
  lemma OfferedTypesAreServed(s: State)
    requires Unread(s)
    ensures Delivery(s, [Send("text/plain;charset=utf-8")]) == [s.held.value]
    ensures Delivery(s, [Send("text/plain")]) == [s.held.value]
    ensures Delivery(s, [Send("image/png")]) == [] && Delivery(s, [Send("text/html")]) == []
  {
    assert "text/plain" <= "text/plain;charset=utf-8";
    assert "image/png"[0] != "text/plain"[0] && "text/html"[5] != "text/plain"[5];
    FirstOf(Send("text/plain;charset=utf-8"));
    FirstOf(Send("text/plain"));
    FirstOf(Send("image/png"));
    FirstOf(Send("text/html"));
  }

  lemma FirstOf(e: Event)
    ensures FirstEnding([e]) == if Ends(e) then Some(e) else None
  {
    assert [e][..0] == [];
    assert FirstEnding([e][..0]) == None;
  }
}
