/** The main results about the clipboard loop, over every run. */
module ClipboardTheorems {
  import opened Wrappers
  import opened Bytes
  import opened ClipboardModel
  import opened ClipboardSafety
  import opened ClipboardJobs

  // ---------------------------------------------------------------------
  // What holds at the end of an iteration.

  ghost predicate Boundary(s: State) {
    && (s.phase.Looping? ==> s.running && (s.consumed && s.source.Some? ==> s.pendingDestroy))
    && (!s.phase.Looping? ==> s.source.None? && s.held.None? && s.doneTx.None?)
  }

  lemma DispatchFacts(s: State, events: seq<Event>)
    requires Coherent(s)
    ensures var d := Dispatch(s, events);
            && d.phase == s.phase && d.running == s.running && d.created == s.created
            && (s.consumed ==> d.consumed && d.pendingDestroy == s.pendingDestroy)
            && (!s.consumed && d.consumed ==> d.pendingDestroy)
  {
    if events != [] {
      DispatchFacts(s, events[..|events| - 1]);
    }
  }

  lemma PublishAllFacts(s: State, holds: seq<Job>)
    requires forall j <- holds :: j.Hold?
    ensures var d := PublishAll(s, holds);
            && d.phase == s.phase && d.running == s.running
            && (holds == [] ==> d == s)
            && (holds != [] ==> d.source.Some? && !d.consumed && !d.pendingDestroy
                                && d.held == Some(holds[|holds| - 1].ciphertext)
                                && d.doneTx == holds[|holds| - 1].done)
  {
    if holds != [] {
      assert forall j <- holds[..|holds| - 1] :: j in holds;
      PublishAllFacts(s, holds[..|holds| - 1]);
    }
  }

  /** The destroy pass leaves no read selection without a pass scheduled for it. */
  lemma AfterDestroyPassBoundary(s: State, t: Turn)
    requires Inv(s) && s.phase.Looping? && Boundary(s)
    ensures var d := AfterDestroyPass(s, t);
            && d.phase.Looping?
            && (d.consumed && d.source.Some? ==> d.pendingDestroy)
            && (s.pendingDestroy ==> d.source.None?)
  {
    DispatchFacts(s.(pendingDestroy := false), t.events);
    TakenAreHolds(t.jobs);
    PublishAllFacts(Dispatch(s.(pendingDestroy := false), t.events), Taken(t.jobs));
    if s.consumed && s.source.None? && !s.pendingDestroy {
      ConsumedStaysDown(s.(pendingDestroy := false), t.events);
    }
  }

  /** Once a selection is down, no event brings one up. */
  lemma ConsumedStaysDown(s: State, events: seq<Event>)
    requires s.source.None?
    ensures Dispatch(s, events).source.None?
  {
    if events != [] {
      ConsumedStaysDown(s, events[..|events| - 1]);
    }
  }

  lemma IterateBoundary(s: State, t: Turn)
    requires Inv(s) && s.phase.Looping? && Boundary(s)
    ensures Boundary(Iterate(s, t))
  {
    AfterDestroyPassBoundary(s, t);
  }

  lemma RunBoundary(turns: seq<Turn>)
    ensures Boundary(Run(turns))
  {
    if turns != [] {
      var before := turns[..|turns| - 1];
      RunBoundary(before);
      RunKeeps(before);
      if Run(before).phase.Looping? {
        IterateBoundary(Run(before), turns[|turns| - 1]);
      }
    }
  }

  // ---------------------------------------------------------------------
  // Paste once.

  /** In every run, whatever the order of reads, cancellations and jobs: a
      selection is delivered to at most one reader, every delivery is of the
      ciphertext of the last published selection while it is up, the selections
      published are the Hold jobs taken, and there are no more deliveries than
      these. */
  lemma {:induction false} PasteOnceInEveryRun(turns: seq<Turn>)
    ensures PasteOnce(Run(turns).log)
    ensures DeliversCurrent(Run(turns).log)
    ensures Published(Run(turns).log) == HoldsTaken(turns)
    ensures TallyOf(Run(turns).log).writes <= |HoldsTaken(turns)|
  {
    RunKeeps(turns);
    PublishedAreTaken(turns);
    TallyCountsHolds(turns);
  }

  // ---------------------------------------------------------------------
  // No endless wait on a read selection.

  /** The poll of any iteration waits without bound only while no selection is
      up that a reader has already received. */
  lemma NoEndlessWait(turns: seq<Turn>, t: Turn)
    requires Run(turns).phase.Looping?
    ensures var d := AfterDestroyPass(Run(turns), t);
            Timeout(d) < 0 && d.held.Some? ==>
              exists p :: StillUp(d.log, p, d.held.value) && UnreadSince(d.log, p)
  {
    var s := Run(turns);
    RunKeeps(turns);
    RunBoundary(turns);
    AfterDestroyPassBoundary(s, t);
    BeforeDestroyPassKeeps(s, t);
    TakeDownKeeps(BeforeDestroyPass(s, t));
  }

  /** A selection read in one iteration is gone after the destroy pass of the
      next, and so is every selection published before it. */
  lemma ReadSelectionGoes(turns: seq<Turn>, t: Turn)
    requires var s := Run(turns); s.phase.Looping? && s.consumed && s.source.Some?
    ensures var d := AfterDestroyPass(Run(turns), t);
            && d.source.None? && d.held.None? && d.doneTx.None?
            && TallyOf(d.log).withdrawn == TallyOf(d.log).published
            && TallyOf(d.log).resolved == TallyOf(d.log).taken
  {
    var s := Run(turns);
    RunKeeps(turns);
    RunBoundary(turns);
    AfterDestroyPassBoundary(s, t);
    BeforeDestroyPassKeeps(s, t);
    TakeDownKeeps(BeforeDestroyPass(s, t));
  }

  // ---------------------------------------------------------------------
  // Completion senders and selections are conserved.

  /** At any time each sender that came with a Hold job taken is resolved, or is
      the one that waits for the selection now up; selections likewise. */
  lemma {:induction false} NothingLost(turns: seq<Turn>)
    ensures var s := Run(turns); var t := TallyOf(s.log);
            && SendersOf(HoldsTaken(turns)) == t.resolved + Just(s.doneTx)
            && |HoldsTaken(turns)| == |t.withdrawn| + (if s.source.Some? then 1 else 0)
            && t.published == t.withdrawn + Just(s.source)
            && (s.source.Some? <==> s.held.Some?)
            && (s.doneTx.Some? ==> s.source.Some?)
  {
    RunKeeps(turns);
    TallyCountsHolds(turns);
  }

  /** Once the loop has ended nothing is left over. */
  lemma NothingLeftAfterEnd(turns: seq<Turn>)
    requires !Run(turns).phase.Looping?
    ensures var s := Run(turns); var t := TallyOf(s.log);
            && s.source.None? && s.held.None? && s.doneTx.None?
            && t.resolved == SendersOf(HoldsTaken(turns))
            && t.withdrawn == t.published && |t.withdrawn| == |HoldsTaken(turns)|
  {
    RunKeeps(turns);
    RunBoundary(turns);
    TallyCountsHolds(turns);
  }

  /** Selections are numbered in order of publication, each number once. */
  lemma {:induction false} PublishedIds(turns: seq<Turn>, id: nat)
    ensures TallyOf(Run(turns).log).published[id] == if id < Run(turns).created then 1 else 0
    ensures TallyOf(Run(turns).log).withdrawn[id] <= 1
  {
    RunKeeps(turns);
    RunNumbered(turns);
    var t := TallyOf(Run(turns).log);
    assert t.published[id] == t.withdrawn[id] + Just(Run(turns).source)[id];
  }

  ghost predicate Numbered(s: State) {
    forall id: nat :: TallyOf(s.log).published[id] == if id < s.created then 1 else 0
  }

  lemma QuietEffect(t: Tally, es: seq<Effect>)
    requires |es| <= 1 && (es != [] ==> !es[0].Publish?)
    ensures AddAny(t, es).published == t.published
  {
  }

  lemma QuietNumbered(s: State, es: seq<Effect>)
    requires Numbered(s)
    requires |es| <= 1 && (es != [] ==> !es[0].Publish?)
    ensures Numbered(s.(log := s.log + es))
  {
    TallyEmitAny(s.log, es);
    QuietEffect(TallyOf(s.log), es);
  }

  lemma TakeDownNumbered(s: State)
    requires Numbered(s)
    ensures Numbered(TakeDown(s))
  {
    QuietNumbered(s, DestroyOf(s.source));
    QuietNumbered(s.(log := s.log + DestroyOf(s.source)), SignalOf(s.doneTx));
  }

  lemma AbortNumbered(s: State)
    requires Numbered(s)
    ensures Numbered(Abort(s))
  {
    QuietNumbered(s, AbandonOf(s.source));
    QuietNumbered(s.(log := s.log + AbandonOf(s.source)), DropOf(s.doneTx));
  }

  lemma PublishNumbered(s: State, e: Effect)
    requires Numbered(s)
    requires e.Publish? && e.source == s.created
    ensures Numbered(s.(created := s.created + 1, log := s.log + [e]))
  {
    TallyEmit(s.log, e);
    var t := TallyOf(s.log);
    assert TallyOf(s.log + [e]).published == t.published + multiset{s.created};
    assert t.published[s.created] == 0;
  }

  lemma SetSelectionNumbered(s: State, ciphertext: Bytes, done: Option<Sender>)
    requires Numbered(s)
    ensures Numbered(SetSelection(s, ciphertext, done))
  {
    QuietNumbered(s, DestroyOf(s.source));
    var l1 := s.log + DestroyOf(s.source);
    PublishNumbered(s.(log := l1), Publish(s.created, ciphertext, done));
    var s2 := s.(created := s.created + 1, log := l1 + [Publish(s.created, ciphertext, done)]);
    QuietNumbered(s2, DropOf(s.doneTx));
  }

  lemma DispatchNumbered(s: State, events: seq<Event>)
    requires Numbered(s)
    ensures Numbered(Dispatch(s, events))
  {
    if events != [] {
      DispatchNumbered(s, events[..|events| - 1]);
      var d, e := Dispatch(s, events[..|events| - 1]), events[|events| - 1];
      match e
      case Send(mime) =>
        QuietNumbered(d, [EmptyRead]);
        if d.held.Some? {
          QuietNumbered(d, [Write(d.held.value)]);
        }
      case Cancelled => TakeDownNumbered(d);
      case OtherEvent =>
    }
  }

  lemma PublishAllNumbered(s: State, holds: seq<Job>)
    requires forall j <- holds :: j.Hold?
    requires Numbered(s)
    ensures Numbered(PublishAll(s, holds))
  {
    if holds != [] {
      var last := holds[|holds| - 1];
      assert forall j <- holds[..|holds| - 1] :: j in holds;
      PublishAllNumbered(s, holds[..|holds| - 1]);
      SetSelectionNumbered(PublishAll(s, holds[..|holds| - 1]), last.ciphertext, last.done);
    }
  }

  lemma EndTurnNumbered(d: State, t: Turn)
    requires Numbered(d)
    ensures Numbered(EndTurn(d, t))
  {
    if !t.flushOk {
      AbortNumbered(d);
    } else if !d.running {
      TakeDownNumbered(d);
    } else if t.readReady {
      QuietNumbered(d, [Poll(Timeout(d))]);
      AbortNumbered(d.(log := d.log + [Poll(Timeout(d))]));
    }
  }

  lemma IterateNumbered(s: State, t: Turn)
    requires Numbered(s)
    ensures Numbered(Iterate(s, t))
  {
    var d1 := Dispatch(s.(pendingDestroy := false), t.events);
    DispatchNumbered(s.(pendingDestroy := false), t.events);
    if !t.dispatchOk {
      AbortNumbered(d1);
    } else {
      TakenAreHolds(t.jobs);
      PublishAllNumbered(d1, Taken(t.jobs));
      TakeDownNumbered(BeforeDestroyPass(s, t));
      EndTurnNumbered(AfterDestroyPass(s, t), t);
    }
  }

  lemma RunNumbered(turns: seq<Turn>)
    ensures Numbered(Run(turns))
  {
    if turns != [] {
      RunNumbered(turns[..|turns| - 1]);
      IterateNumbered(Run(turns[..|turns| - 1]), turns[|turns| - 1]);
    }
  }

  // ---------------------------------------------------------------------
  // Who is told and who is not.

  /** The sender of the last published selection. */
  function LastDone(log: seq<Effect>): Option<Sender> {
    if log == [] then None
    else if log[|log| - 1].Publish? then log[|log| - 1].done
    else LastDone(log[..|log| - 1])
  }

  /** Whether the last effect of a log resolves the right sender.  A dropped one
      belongs to the selection that the effect before it replaces or abandons, a
      signalled one to the last selection published, which was withdrawn just before. */
  predicate ResolvesOwn(log: seq<Effect>)
    requires log != []
  {
    var n, e := |log| - 1, log[|log| - 1];
    match e
    case Drop(x) => n > 0 && (log[n - 1].Publish? || log[n - 1].Abandon?) && LastDone(log[..n - 1]) == Some(x)
    case Signal(x) => n > 0 && log[n - 1].Destroy? && LastDone(log[..n]) == Some(x)
    case _ => true
  }

  ghost predicate AllResolveOwn(log: seq<Effect>) {
    forall n :: 0 < n <= |log| ==> ResolvesOwn(log[..n])
  }

  ghost predicate NoneAbandoned(log: seq<Effect>) {
    forall i :: 0 <= i < |log| ==> !log[i].Abandon?
  }

  ghost predicate Orderly(s: State) {
    && AllResolveOwn(s.log)
    && (!s.phase.Aborted? ==> NoneAbandoned(s.log))
    && (s.doneTx.Some? ==> s.source.Some? && LastDone(s.log) == s.doneTx)
  }

  lemma LastDoneEmit(log: seq<Effect>, e: Effect)
    ensures LastDone(log + [e]) == if e.Publish? then e.done else LastDone(log)
  {
    assert (log + [e])[..|log|] == log;
  }

  lemma EmitResolves(log: seq<Effect>, e: Effect)
    requires AllResolveOwn(log) && ResolvesOwn(log + [e])
    ensures AllResolveOwn(log + [e])
  {
    var after := log + [e];
    forall n | 0 < n <= |after| ensures ResolvesOwn(after[..n]) {
      if n <= |log| {
        assert after[..n] == log[..n];
      } else {
        assert after[..n] == after;
      }
    }
  }

  /** At most one effect, which resolves no sender and publishes nothing. */
  lemma QuietResolves(log: seq<Effect>, es: seq<Effect>)
    requires AllResolveOwn(log)
    requires |es| <= 1 && (es != [] ==> !es[0].Publish? && !es[0].Drop? && !es[0].Signal?)
    ensures AllResolveOwn(log + es) && LastDone(log + es) == LastDone(log)
  {
    if es == [] {
      assert log + es == log;
    } else {
      assert es == [es[0]];
      EmitResolves(log, es[0]);
      LastDoneEmit(log, es[0]);
    }
  }

  lemma SignalResolves(log: seq<Effect>, sender: Option<Sender>)
    requires AllResolveOwn(log)
    requires sender.Some? ==> LastDone(log) == sender && log != [] && log[|log| - 1].Destroy?
    ensures AllResolveOwn(log + SignalOf(sender))
  {
    if sender.Some? {
      assert (log + SignalOf(sender))[..|log|] == log;
      EmitResolves(log, Signal(sender.value));
    } else {
      assert log + SignalOf(sender) == log;
    }
  }

  /** `cause` replaces or abandons the selection that the sender belongs to. */
  lemma DropResolves(log: seq<Effect>, cause: Effect, sender: Option<Sender>)
    requires AllResolveOwn(log + [cause]) && (cause.Publish? || cause.Abandon?)
    requires sender.Some? ==> LastDone(log) == sender
    ensures AllResolveOwn(log + [cause] + DropOf(sender))
    ensures LastDone(log + [cause] + DropOf(sender)) == LastDone(log + [cause])
  {
    var caused := log + [cause];
    if sender.Some? {
      assert (caused + DropOf(sender))[..|log|] == log;
      EmitResolves(caused, Drop(sender.value));
      LastDoneEmit(caused, Drop(sender.value));
    } else {
      assert caused + DropOf(sender) == caused;
    }
  }

  lemma TakeDownOrderly(s: State)
    requires Orderly(s)
    ensures Orderly(TakeDown(s))
  {
    QuietResolves(s.log, DestroyOf(s.source));
    SignalResolves(s.log + DestroyOf(s.source), s.doneTx);
  }

  lemma SetSelectionOrderly(s: State, ciphertext: Bytes, done: Option<Sender>)
    requires Orderly(s)
    ensures Orderly(SetSelection(s, ciphertext, done))
  {
    var destroyed := s.log + DestroyOf(s.source);
    var e := Publish(s.created, ciphertext, done);
    QuietResolves(s.log, DestroyOf(s.source));
    EmitResolves(destroyed, e);
    LastDoneEmit(destroyed, e);
    DropResolves(destroyed, e, s.doneTx);
  }

  lemma AbortOrderly(s: State)
    requires Orderly(s)
    ensures Orderly(Abort(s))
  {
    QuietResolves(s.log, AbandonOf(s.source));
    if s.source.Some? {
      DropResolves(s.log, Abandon(s.source.value), s.doneTx);
    } else {
      assert s.log + AbandonOf(s.source) + DropOf(s.doneTx) == s.log;
    }
  }

  lemma EmitOrderly(s: State, e: Effect)
    requires Orderly(s) && (e.Write? || e.EmptyRead? || e.Poll?)
    ensures Orderly(s.(log := s.log + [e]))
  {
    QuietResolves(s.log, [e]);
  }

  lemma OnEventOrderly(s: State, e: Event)
    requires Orderly(s)
    ensures Orderly(OnEvent(s, e))
  {
    match e
    case Send(mime) =>
      EmitOrderly(s, EmptyRead);
      if s.held.Some? {
        EmitOrderly(s, Write(s.held.value));
      }
    case Cancelled => TakeDownOrderly(s);
    case OtherEvent =>
  }

  lemma DispatchOrderly(s: State, events: seq<Event>)
    requires Orderly(s)
    ensures Orderly(Dispatch(s, events))
  {
    if events != [] {
      DispatchOrderly(s, events[..|events| - 1]);
      OnEventOrderly(Dispatch(s, events[..|events| - 1]), events[|events| - 1]);
    }
  }

  lemma PublishAllOrderly(s: State, holds: seq<Job>)
    requires forall j <- holds :: j.Hold?
    requires Orderly(s)
    ensures Orderly(PublishAll(s, holds))
  {
    if holds != [] {
      var last := holds[|holds| - 1];
      assert forall j <- holds[..|holds| - 1] :: j in holds;
      PublishAllOrderly(s, holds[..|holds| - 1]);
      SetSelectionOrderly(PublishAll(s, holds[..|holds| - 1]), last.ciphertext, last.done);
    }
  }

  lemma EndTurnOrderly(d: State, t: Turn)
    requires Orderly(d) && d.phase.Looping?
    ensures Orderly(EndTurn(d, t))
  {
    if !t.flushOk {
      AbortOrderly(d);
    } else if !d.running {
      TakeDownOrderly(d);
    } else if t.readReady {
      EmitOrderly(d, Poll(Timeout(d)));
      AbortOrderly(d.(log := d.log + [Poll(Timeout(d))]));
    }
  }

  lemma IterateOrderly(s: State, t: Turn)
    requires Orderly(s) && s.phase.Looping? && Inv(s)
    ensures Orderly(Iterate(s, t))
  {
    var d1 := Dispatch(s.(pendingDestroy := false), t.events);
    DispatchFacts(s.(pendingDestroy := false), t.events);
    DispatchOrderly(s.(pendingDestroy := false), t.events);
    if !t.dispatchOk {
      AbortOrderly(d1);
    } else {
      TakenAreHolds(t.jobs);
      PublishAllOrderly(d1, Taken(t.jobs));
      PublishAllFacts(d1, Taken(t.jobs));
      TakeDownOrderly(BeforeDestroyPass(s, t));
      EndTurnOrderly(AfterDestroyPass(s, t), t);
    }
  }

  lemma RunOrderly(turns: seq<Turn>)
    ensures Orderly(Run(turns))
  {
    if turns != [] {
      var before := turns[..|turns| - 1];
      RunOrderly(before);
      RunKeeps(before);
      if Run(before).phase.Looping? {
        IterateOrderly(Run(before), turns[|turns| - 1]);
      }
    }
  }

  lemma DroppedIsOwn(log: seq<Effect>, i: nat)
    requires AllResolveOwn(log) && i < |log| && log[i].Drop?
    ensures i > 0 && (log[i - 1].Publish? || log[i - 1].Abandon?)
    ensures LastDone(log[..i - 1]) == Some(log[i].sender)
  {
    assert ResolvesOwn(log[..i + 1]);
    assert log[..i + 1][i] == log[i];
    assert i > 0;
    assert log[..i + 1][i - 1] == log[i - 1];
    assert log[..i + 1][..i - 1] == log[..i - 1];
  }

  /** A sender is dropped only where a new selection is published, or where the
      loop fails and abandons its selection; and it is the sender of the last
      selection published before that. */
  lemma {:induction false} OnlySupersededAreDropped(turns: seq<Turn>, i: nat)
    requires i < |Run(turns).log| && Run(turns).log[i].Drop?
    ensures var log := Run(turns).log;
            && i > 0
            && (log[i - 1].Publish? || (log[i - 1].Abandon? && Run(turns).phase.Aborted?))
            && LastDone(log[..i - 1]) == Some(log[i].sender)
  {
    RunOrderly(turns);
    DroppedIsOwn(Run(turns).log, i);
  }

  /** In every run the sender signalled is that of the last selection published,
      which has been withdrawn just before. */
  lemma {:induction false} OwnSenderIsSignalled(turns: seq<Turn>, i: nat)
    requires i < |Run(turns).log| && Run(turns).log[i].Signal?
    ensures i > 0 && Run(turns).log[i - 1].Destroy?
    ensures LastDone(Run(turns).log[..i]) == Some(Run(turns).log[i].sender)
  {
    RunOrderly(turns);
    SignalledIsOwn(Run(turns).log, i);
  }

  lemma SignalledIsOwn(log: seq<Effect>, i: nat)
    requires AllResolveOwn(log) && i < |log| && log[i].Signal?
    ensures i > 0 && log[i - 1].Destroy? && LastDone(log[..i]) == Some(log[i].sender)
  {
    assert ResolvesOwn(log[..i + 1]);
    assert log[..i + 1][i] == log[i];
    assert i > 0;
    assert log[..i + 1][i - 1] == log[i - 1];
    assert log[..i + 1][..i] == log[..i];
  }

  // ---------------------------------------------------------------------
  // What the destroy pass tears down.

  /** The destroy pass takes down a selection that nobody has read exactly when
      a Hold job was drained in the same iteration. */
  lemma DestroyPassTakesUnread(turns: seq<Turn>, t: Turn)
    requires var s := Run(turns); s.phase.Looping? && s.pendingDestroy
    ensures var d := BeforeDestroyPass(Run(turns), t);
            && (Unread(d) <==> Taken(t.jobs) != [])
            && AfterDestroyPass(Run(turns), t) == TakeDown(d)
  {
    var s := Run(turns);
    RunKeeps(turns);
    DispatchFacts(s.(pendingDestroy := false), t.events);
    TakenAreHolds(t.jobs);
    PublishAllFacts(Dispatch(s.(pendingDestroy := false), t.events), Taken(t.jobs));
  }

  /** In that case the caller of the last drained Hold is told that its copy is
      done although no reader received it. */
  lemma HoldLostToDestroyPass(turns: seq<Turn>, t: Turn)
    requires var s := Run(turns); s.phase.Looping? && s.pendingDestroy
    requires Taken(t.jobs) != []
    ensures var d := BeforeDestroyPass(Run(turns), t); var last := Taken(t.jobs)[|Taken(t.jobs)| - 1];
            && last.Hold?
            && (exists p :: StillUp(d.log, p, last.ciphertext) && UnreadSince(d.log, p))
            && AfterDestroyPass(Run(turns), t).source.None?
            && AfterDestroyPass(Run(turns), t).log == d.log + DestroyOf(d.source) + SignalOf(last.done)
  {
    var s := Run(turns);
    DestroyPassTakesUnread(turns, t);
    RunKeeps(turns);
    BeforeDestroyPassKeeps(s, t);
    TakenAreHolds(t.jobs);
    assert Taken(t.jobs)[|Taken(t.jobs)| - 1] in Taken(t.jobs);
    PublishAllFacts(Dispatch(s.(pendingDestroy := false), t.events), Taken(t.jobs));
  }

  function Quiet(events: seq<Event>, jobs: seq<Job>): Turn {
    Turn(events, true, jobs, false, true, true, Woken)
  }

  function FirstUp(): State {
    State(Looping, true, Some(0), Some([7]), Some(0), false, false, 1, [Publish(0, [7], Some(0)), Poll(-1)])
  }

  function FirstRead(): State {
    State(Looping, true, Some(0), Some([7]), Some(0), true, true, 1,
          [Publish(0, [7], Some(0)), Poll(-1), Write([7]), Poll(PASTE_ONCE_POLL_MS)])
  }

  lemma CopyThenPaste()
    ensures Iterate(Initial, Quiet([], [Hold([7], Some(0))])) == FirstUp()
    ensures Iterate(FirstUp(), Quiet([Send("text/plain")], [])) == FirstRead()
  {
    OneHold(Initial, Quiet([], [Hold([7], Some(0))]));
    OneSend(FirstUp(), Quiet([Send("text/plain")], []), "text/plain");
  }

  /** Such a run exists: copy, paste, copy again before the destroy pass. */
  lemma SecondCopyLost() returns (turns: seq<Turn>)
    ensures Run(turns).phase.Looping?
    ensures Run(turns).source.None?
    ensures Run(turns).log ==
            [Publish(0, [7], Some(0)), Poll(-1), Write([7]), Poll(PASTE_ONCE_POLL_MS),
             Destroy(0), Publish(1, [8], Some(1)), Drop(0), Destroy(1), Signal(1), Poll(-1)]
  {
    var t1 := Quiet([], [Hold([7], Some(0))]);
    var t2 := Quiet([Send("text/plain")], []);
    var t3 := Quiet([], [Hold([8], Some(1))]);
    turns := [] + [t1] + [t2] + [t3];
    CopyThenPaste();
    RunExtends([], t1);
    RunExtends([] + [t1], t2);
    RunExtends([] + [t1] + [t2], t3);
    OneHold(FirstRead(), t3);
  }

  lemma RunExtends(turns: seq<Turn>, t: Turn)
    requires Run(turns).phase.Looping?
    ensures Run(turns + [t]) == Iterate(Run(turns), t)
  {
    assert (turns + [t])[..|turns|] == turns;
  }

  lemma OneHold(s: State, t: Turn)
    requires t.events == [] && |t.jobs| == 1 && t.jobs[0].Hold? && !t.disconnected
    ensures BeforeDestroyPass(s, t) ==
            SetSelection(s.(pendingDestroy := false), t.jobs[0].ciphertext, t.jobs[0].done)
  {
    assert t.jobs[1..] == [] && t.jobs == [t.jobs[0]] + t.jobs[1..];
    assert Taken(t.jobs) == t.jobs;
    assert PublishAll(s.(pendingDestroy := false), t.jobs[..0]) == s.(pendingDestroy := false);
  }

  lemma OneSend(s: State, t: Turn, mime: string)
    requires t.events == [Send(mime)] && t.jobs == [] && !t.disconnected
    ensures BeforeDestroyPass(s, t) == OnSend(s.(pendingDestroy := false), mime)
  {
    assert t.events[..0] == [];
    assert Dispatch(s.(pendingDestroy := false), t.events[..0]) == s.(pendingDestroy := false);
  }
}
