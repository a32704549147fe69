/** What every run of the clipboard loop keeps, whatever the environment does. */
module ClipboardSafety {
  import opened Wrappers
  import opened Bytes
  import opened ClipboardModel

  // ---------------------------------------------------------------------
  // What a log adds up to.

  /** `taken` are the senders that came in with published selections, `resolved`
      those signalled or dropped; `published` and `withdrawn` do the same for the
      selections themselves. */
  datatype Tally = Tally(
    writes: nat,
    taken: multiset<Sender>,
    resolved: multiset<Sender>,
    published: multiset<nat>,
    withdrawn: multiset<nat>)

  const NoTally := Tally(0, multiset{}, multiset{}, multiset{}, multiset{})

  function Just<T>(x: Option<T>): multiset<T> {
    if x.Some? then multiset{x.value} else multiset{}
  }

  function Add(t: Tally, e: Effect): Tally {
    match e
    case Publish(source, _, done) =>
      t.(taken := t.taken + Just(done), published := t.published + multiset{source})
    case Write(_) => t.(writes := t.writes + 1)
    case Destroy(source) => t.(withdrawn := t.withdrawn + multiset{source})
    case Abandon(source) => t.(withdrawn := t.withdrawn + multiset{source})
    case Signal(sender) => t.(resolved := t.resolved + multiset{sender})
    case Drop(sender) => t.(resolved := t.resolved + multiset{sender})
    case _ => t
  }

  function TallyOf(log: seq<Effect>): Tally {
    if log == [] then NoTally else Add(TallyOf(log[..|log| - 1]), log[|log| - 1])
  }

  lemma TallyEmit(log: seq<Effect>, e: Effect)
    ensures TallyOf(log + [e]) == Add(TallyOf(log), e)
  {
    assert (log + [e])[..|log|] == log;
  }

  /** The tally after at most one more effect. */
  function AddAny(t: Tally, es: seq<Effect>): Tally
    requires |es| <= 1
  {
    if es == [] then t else Add(t, es[0])
  }

  lemma TallyEmitAny(log: seq<Effect>, es: seq<Effect>)
    requires |es| <= 1
    ensures TallyOf(log + es) == AddAny(TallyOf(log), es)
  {
    if es == [] {
      assert log + es == log;
    } else {
      TallyEmit(log, es[0]);
      assert es == [es[0]];
    }
  }

  // ---------------------------------------------------------------------
  // Properties of a log.

  /** Two deliveries are always separated by the publication of a new selection. */
  ghost predicate PasteOnce(log: seq<Effect>) {
    forall i, j :: 0 <= i < j < |log| && log[i].Write? && log[j].Write? ==>
                     exists p :: i < p < j && log[p].Publish?
  }

  /** The effect at `p` published the selection that is still up after the log. */
  ghost predicate StillUp(log: seq<Effect>, p: int, ciphertext: Bytes) {
    && 0 <= p < |log|
    && log[p].Publish?
    && log[p].ciphertext == ciphertext
    && (forall q :: p < q < |log| ==> !log[q].Publish? && !log[q].Destroy?)
  }

  /** Every delivery is of the ciphertext of the last selection published before
      it, while that selection is up. */
  ghost predicate DeliversCurrent(log: seq<Effect>) {
    forall i :: 0 <= i < |log| && log[i].Write? ==>
                  exists p :: StillUp(log[..i], p, log[i].ciphertext)
  }

  ghost predicate PastesOk(log: seq<Effect>) {
    PasteOnce(log) && DeliversCurrent(log)
  }

  ghost predicate UnreadSince(log: seq<Effect>, p: int) {
    forall q :: 0 <= q && p <= q < |log| ==> !log[q].Write?
  }

  // ---------------------------------------------------------------------
  // The invariant, kept by every single step.

  /** The fields agree with each other. */
  ghost predicate Coherent(s: State) {
    && (s.source.Some? <==> s.held.Some?)
    && (s.doneTx.Some? ==> s.source.Some?)
    && (s.pendingDestroy ==> s.consumed)
  }

  /** The fields agree with the log. */
  ghost predicate Logged(s: State) {
    s.held.Some? ==> exists p :: StillUp(s.log, p, s.held.value) && (s.consumed <==> !UnreadSince(s.log, p))
  }

  /** Nothing taken is lost and nothing is resolved twice. */
  ghost predicate Balanced(t: Tally, source: Option<nat>, doneTx: Option<Sender>, unread: bool) {
    && t.taken == t.resolved + Just(doneTx)
    && t.published == t.withdrawn + Just(source)
    && t.writes + (if unread then 1 else 0) <= |t.published|
  }

  predicate Unread(s: State) {
    s.held.Some? && !s.consumed
  }

  ghost predicate Conserved(s: State) {
    Balanced(TallyOf(s.log), s.source, s.doneTx, Unread(s))
  }

  ghost predicate Inv(s: State) {
    Coherent(s) && Logged(s) && Conserved(s) && PastesOk(s.log)
  }

  /** Effects other than deliveries never break the log properties. */
  lemma QuietEmit(log: seq<Effect>, e: Effect)
    requires PastesOk(log)
    requires !e.Write?
    ensures PastesOk(log + [e])
  {
    var after := log + [e];
    forall i | 0 <= i < |after| && after[i].Write?
      ensures exists p :: StillUp(after[..i], p, after[i].ciphertext)
    {
      assert after[..i] == log[..i];
    }
    forall i, j | 0 <= i < j < |after| && after[i].Write? && after[j].Write?
      ensures exists p :: i < p < j && after[p].Publish?
    {
      var p :| i < p < j && log[p].Publish?;
      assert after[p].Publish?;
    }
  }

  lemma QuietEmitAny(log: seq<Effect>, es: seq<Effect>)
    requires PastesOk(log)
    requires |es| <= 1 && (es != [] ==> !es[0].Write?)
    ensures PastesOk(log + es)
  {
    if es == [] {
      assert log + es == log;
    } else {
      QuietEmit(log, es[0]);
      assert es == [es[0]];
    }
  }

  lemma TakeDownLog(s: State)
    requires PastesOk(s.log)
    ensures PastesOk(TakeDown(s).log)
  {
    QuietEmitAny(s.log, DestroyOf(s.source));
    QuietEmitAny(s.log + DestroyOf(s.source), SignalOf(s.doneTx));
  }

  /** Withdrawing the selection, however it is done, keeps the balance. */
  lemma BalanceWithdrawn(t: Tally, es: seq<Effect>, source: Option<nat>, doneTx: Option<Sender>, unread: bool)
    requires Balanced(t, source, doneTx, unread)
    requires es == DestroyOf(source) || es == AbandonOf(source)
    ensures Balanced(AddAny(t, es), None, doneTx, false)
  {
    if source.None? {
      assert es == [];
    } else {
      assert AddAny(t, es).withdrawn == t.withdrawn + Just(source);
    }
  }

  lemma BalanceResolved(t: Tally, es: seq<Effect>, source: Option<nat>, doneTx: Option<Sender>, unread: bool)
    requires Balanced(t, source, doneTx, unread)
    requires es == SignalOf(doneTx) || es == DropOf(doneTx)
    ensures Balanced(AddAny(t, es), source, None, unread)
  {
  }

  lemma TakeDownConserves(s: State)
    requires Conserved(s)
    ensures Conserved(TakeDown(s))
  {
    BalanceWithdrawn(TallyOf(s.log), DestroyOf(s.source), s.source, s.doneTx, Unread(s));
    TallyEmitAny(s.log, DestroyOf(s.source));
    BalanceResolved(TallyOf(s.log + DestroyOf(s.source)), SignalOf(s.doneTx), None, s.doneTx, false);
    TallyEmitAny(s.log + DestroyOf(s.source), SignalOf(s.doneTx));
  }

  lemma TakeDownKeeps(s: State)
    requires Inv(s)
    ensures Inv(TakeDown(s))
  {
    TakeDownLog(s);
    TakeDownConserves(s);
  }

  lemma AbortLog(s: State)
    requires PastesOk(s.log)
    ensures PastesOk(Abort(s).log)
  {
    QuietEmitAny(s.log, AbandonOf(s.source));
    QuietEmitAny(s.log + AbandonOf(s.source), DropOf(s.doneTx));
  }

  lemma AbortConserves(s: State)
    requires Conserved(s)
    ensures Conserved(Abort(s))
  {
    BalanceWithdrawn(TallyOf(s.log), AbandonOf(s.source), s.source, s.doneTx, Unread(s));
    TallyEmitAny(s.log, AbandonOf(s.source));
    BalanceResolved(TallyOf(s.log + AbandonOf(s.source)), DropOf(s.doneTx), None, s.doneTx, false);
    TallyEmitAny(s.log + AbandonOf(s.source), DropOf(s.doneTx));
  }

  lemma AbortKeeps(s: State)
    requires Inv(s)
    ensures Inv(Abort(s))
  {
    AbortLog(s);
    AbortConserves(s);
  }

  lemma SetSelectionLog(s: State, ciphertext: Bytes, done: Option<Sender>)
    requires PastesOk(s.log)
    ensures PastesOk(SetSelection(s, ciphertext, done).log)
  {
    var l1 := s.log + DestroyOf(s.source);
    var l2 := l1 + [Publish(s.created, ciphertext, done)];
    QuietEmitAny(s.log, DestroyOf(s.source));
    QuietEmit(l1, Publish(s.created, ciphertext, done));
    QuietEmitAny(l2, DropOf(s.doneTx));
  }

  lemma BalancePublished(t: Tally, e: Effect, waiting: Option<Sender>)
    requires Balanced(t, None, waiting, false)
    requires e.Publish?
    ensures var es := DropOf(waiting);
            Balanced(AddAny(Add(t, e), es), Some(e.source), e.done, true)
  {
  }

  lemma SetSelectionConserves(s: State, ciphertext: Bytes, done: Option<Sender>)
    requires Conserved(s)
    ensures Conserved(SetSelection(s, ciphertext, done))
  {
    var l1 := s.log + DestroyOf(s.source);
    var l2 := l1 + [Publish(s.created, ciphertext, done)];
    BalanceWithdrawn(TallyOf(s.log), DestroyOf(s.source), s.source, s.doneTx, Unread(s));
    TallyEmitAny(s.log, DestroyOf(s.source));
    BalancePublished(TallyOf(l1), Publish(s.created, ciphertext, done), s.doneTx);
    TallyEmit(l1, Publish(s.created, ciphertext, done));
    TallyEmitAny(l2, DropOf(s.doneTx));
  }

  lemma SetSelectionLogged(s: State, ciphertext: Bytes, done: Option<Sender>)
    ensures Logged(SetSelection(s, ciphertext, done))
  {
    var p := |s.log + DestroyOf(s.source)|;
    var after := SetSelection(s, ciphertext, done).log;
    assert StillUp(after, p, ciphertext) && UnreadSince(after, p);
  }

  lemma SetSelectionKeeps(s: State, ciphertext: Bytes, done: Option<Sender>)
    requires Inv(s)
    ensures Inv(SetSelection(s, ciphertext, done))
  {
    SetSelectionLog(s, ciphertext, done);
    SetSelectionConserves(s, ciphertext, done);
    SetSelectionLogged(s, ciphertext, done);
  }

  lemma EmitLogged(s: State, e: Effect)
    requires Logged(s)
    requires e.EmptyRead? || e.Poll?
    ensures Logged(s.(log := s.log + [e]))
  {
    if s.held.Some? {
      var p :| StillUp(s.log, p, s.held.value) && (s.consumed <==> !UnreadSince(s.log, p));
      var after := s.log + [e];
      assert StillUp(after, p, s.held.value);
      assert s.log == after[..|s.log|];
      assert s.consumed <==> !UnreadSince(after, p);
    }
  }

  lemma EmitKeeps(s: State, e: Effect)
    requires Inv(s)
    requires e.EmptyRead? || e.Poll?
    ensures Inv(s.(log := s.log + [e]))
  {
    QuietEmit(s.log, e);
    TallyEmit(s.log, e);
    EmitLogged(s, e);
  }

  /** The one delivery of a selection. */
  lemma WriteOnce(log: seq<Effect>, ciphertext: Bytes, p: int)
    requires PasteOnce(log)
    requires StillUp(log, p, ciphertext) && UnreadSince(log, p)
    ensures PasteOnce(log + [Write(ciphertext)])
  {
    var after := log + [Write(ciphertext)];
    forall i, j | 0 <= i < j < |after| && after[i].Write? && after[j].Write?
      ensures exists p :: i < p < j && after[p].Publish?
    {
      if j == |log| {
        assert i < p && after[p].Publish?;
      } else {
        var p' :| i < p' < j && log[p'].Publish?;
        assert after[p'].Publish?;
      }
    }
  }

  lemma WriteCurrent(log: seq<Effect>, ciphertext: Bytes, p: int)
    requires DeliversCurrent(log)
    requires StillUp(log, p, ciphertext)
    ensures DeliversCurrent(log + [Write(ciphertext)])
    ensures StillUp(log + [Write(ciphertext)], p, ciphertext)
  {
    var after := log + [Write(ciphertext)];
    forall i | 0 <= i < |after| && after[i].Write?
      ensures exists p :: StillUp(after[..i], p, after[i].ciphertext)
    {
      assert after[..i] == log[..i];
      if i == |log| {
        assert after[..i] == log;
      }
    }
  }

  lemma WriteKeeps(s: State, mime: string)
    requires Inv(s)
    requires IsTextMime(mime) && s.held.Some? && !s.consumed
    ensures Inv(OnSend(s, mime))
  {
    var p :| StillUp(s.log, p, s.held.value) && UnreadSince(s.log, p);
    WriteOnce(s.log, s.held.value, p);
    WriteCurrent(s.log, s.held.value, p);
    TallyEmit(s.log, Write(s.held.value));
    assert OnSend(s, mime).log[|s.log|].Write?;
  }

  lemma OnEventKeeps(s: State, e: Event)
    requires Inv(s)
    ensures Inv(OnEvent(s, e))
  {
    match e
    case Send(mime) =>
      if !IsTextMime(mime) || s.consumed || s.held.None? {
        EmitKeeps(s, EmptyRead);
      } else {
        WriteKeeps(s, mime);
      }
    case Cancelled => TakeDownKeeps(s);
    case OtherEvent =>
  }

  lemma DispatchKeeps(s: State, events: seq<Event>)
    requires Inv(s)
    ensures Inv(Dispatch(s, events))
  {
    if events != [] {
      DispatchKeeps(s, events[..|events| - 1]);
      OnEventKeeps(Dispatch(s, events[..|events| - 1]), events[|events| - 1]);
    }
  }

  lemma PublishAllKeeps(s: State, holds: seq<Job>)
    requires Inv(s)
    requires forall j <- holds :: j.Hold?
    ensures Inv(PublishAll(s, holds))
  {
    if holds != [] {
      var last := holds[|holds| - 1];
      assert forall j <- holds[..|holds| - 1] :: j in holds;
      PublishAllKeeps(s, holds[..|holds| - 1]);
      SetSelectionKeeps(PublishAll(s, holds[..|holds| - 1]), last.ciphertext, last.done);
    }
  }

  lemma BeforeDestroyPassKeeps(s: State, t: Turn)
    requires Inv(s)
    ensures Inv(BeforeDestroyPass(s, t))
  {
    DispatchKeeps(s.(pendingDestroy := false), t.events);
    TakenAreHolds(t.jobs);
    PublishAllKeeps(Dispatch(s.(pendingDestroy := false), t.events), Taken(t.jobs));
  }

  /** Whatever ends an iteration after its destroy pass. */
  lemma EndTurnKeeps(d: State, t: Turn)
    requires Inv(d)
    ensures Inv(EndTurn(d, t))
  {
    if !t.flushOk {
      AbortKeeps(d);
    } else if !d.running {
      TakeDownKeeps(d);
    } else if t.readReady {
      EmitKeeps(d, Poll(Timeout(d)));
      AbortKeeps(d.(log := d.log + [Poll(Timeout(d))]));
    }
  }

  lemma IterateKeeps(s: State, t: Turn)
    requires Inv(s)
    ensures Inv(Iterate(s, t))
  {
    if !t.dispatchOk {
      DispatchKeeps(s.(pendingDestroy := false), t.events);
      AbortKeeps(Dispatch(s.(pendingDestroy := false), t.events));
    } else {
      BeforeDestroyPassKeeps(s, t);
      TakeDownKeeps(BeforeDestroyPass(s, t));
      EndTurnKeeps(AfterDestroyPass(s, t), t);
    }
  }

  /** Every run keeps the invariant. */
  lemma RunKeeps(turns: seq<Turn>)
    ensures Inv(Run(turns))
  {
    if turns != [] {
      RunKeeps(turns[..|turns| - 1]);
      IterateKeeps(Run(turns[..|turns| - 1]), turns[|turns| - 1]);
    }
  }
}
