/** The selections that the loop publishes are the Hold jobs that it takes. */
module ClipboardJobs {
  import opened Wrappers
  import opened Bytes
  import opened ClipboardModel
  import opened ClipboardSafety

  function JobOf(e: Effect): seq<Job> {
    if e.Publish? then [Hold(e.ciphertext, e.done)] else []
  }

  /** What was published, in order, with the sender that came with it. */
  function Published(log: seq<Effect>): seq<Job> {
    if log == [] then [] else Published(log[..|log| - 1]) + JobOf(log[|log| - 1])
  }

  /** The Hold jobs that the channel delivers during a run, in order: in each
      iteration that begins and gets as far as the drain, those before the first
      Shutdown. */
  function HoldsTaken(turns: seq<Turn>): seq<Job> {
    if turns == [] then []
    else
      var before, t := turns[..|turns| - 1], turns[|turns| - 1];
      HoldsTaken(before) + if Run(before).phase.Looping? && t.dispatchOk then Taken(t.jobs) else []
  }

  function SendersOf(jobs: seq<Job>): multiset<Sender> {
    if jobs == [] then multiset{}
    else
      var last := jobs[|jobs| - 1];
      SendersOf(jobs[..|jobs| - 1]) + if last.Hold? then Just(last.done) else multiset{}
  }

  lemma PublishedEmit(log: seq<Effect>, e: Effect)
    ensures Published(log + [e]) == Published(log) + JobOf(e)
  {
    assert (log + [e])[..|log|] == log;
  }

  /** At most one effect, and not a publication. */
  lemma QuietPublished(log: seq<Effect>, es: seq<Effect>)
    requires |es| <= 1 && (es != [] ==> !es[0].Publish?)
    ensures Published(log + es) == Published(log)
  {
    if es == [] {
      assert log + es == log;
    } else {
      PublishedEmit(log, es[0]);
      assert es == [es[0]];
    }
  }

  lemma TakeDownPublished(s: State)
    ensures Published(TakeDown(s).log) == Published(s.log)
  {
    QuietPublished(s.log, DestroyOf(s.source));
    QuietPublished(s.log + DestroyOf(s.source), SignalOf(s.doneTx));
  }

  lemma AbortPublished(s: State)
    ensures Published(Abort(s).log) == Published(s.log)
  {
    QuietPublished(s.log, AbandonOf(s.source));
    QuietPublished(s.log + AbandonOf(s.source), DropOf(s.doneTx));
  }

  lemma SetSelectionPublished(s: State, ciphertext: Bytes, done: Option<Sender>)
    ensures Published(SetSelection(s, ciphertext, done).log) == Published(s.log) + [Hold(ciphertext, done)]
  {
    var e := Publish(s.created, ciphertext, done);
    QuietPublished(s.log, DestroyOf(s.source));
    PublishedEmit(s.log + DestroyOf(s.source), e);
    QuietPublished(s.log + DestroyOf(s.source) + [e], DropOf(s.doneTx));
  }

  lemma {:induction false} DispatchPublished(s: State, events: seq<Event>)
    ensures Published(Dispatch(s, events).log) == Published(s.log)
  {
    if events != [] {
      DispatchPublished(s, events[..|events| - 1]);
      var d, e := Dispatch(s, events[..|events| - 1]), events[|events| - 1];
      if e.Cancelled? {
        TakeDownPublished(d);
      } else if e.Send? {
        PublishedEmit(d.log, EmptyRead);
        if d.held.Some? {
          PublishedEmit(d.log, Write(d.held.value));
        }
      }
    }
  }

  lemma {:induction false} PublishAllPublished(s: State, holds: seq<Job>)
    requires forall j <- holds :: j.Hold?
    ensures Published(PublishAll(s, holds).log) == Published(s.log) + holds
  {
    if holds != [] {
      var before, last := holds[..|holds| - 1], holds[|holds| - 1];
      assert forall j <- before :: j in holds;
      PublishAllPublished(s, before);
      SetSelectionPublished(PublishAll(s, before), last.ciphertext, last.done);
      assert last in holds;
      AppendLast(Published(s.log), holds);
    }
  }

  lemma AppendLast(a: seq<Job>, b: seq<Job>)
    requires b != []
    ensures a + b[..|b| - 1] + [b[|b| - 1]] == a + b
  {
  }

  lemma EndTurnPublished(d: State, t: Turn)
    ensures Published(EndTurn(d, t).log) == Published(d.log)
  {
    if !t.flushOk {
      AbortPublished(d);
    } else if !d.running {
      TakeDownPublished(d);
    } else if t.readReady {
      QuietPublished(d.log, [Poll(Timeout(d))]);
      AbortPublished(d.(log := d.log + [Poll(Timeout(d))]));
    }
  }

  lemma IteratePublished(s: State, t: Turn)
    ensures Published(Iterate(s, t).log) == Published(s.log) + if t.dispatchOk then Taken(t.jobs) else []
  {
    var started := s.(pendingDestroy := false);
    var d := Dispatch(started, t.events);
    DispatchPublished(started, t.events);
    AbortPublished(d);
    TakenAreHolds(t.jobs);
    PublishAllPublished(d, Taken(t.jobs));
    TakeDownPublished(BeforeDestroyPass(s, t));
    EndTurnPublished(AfterDestroyPass(s, t), t);
  }

  /** In every run the selections published are exactly the Hold jobs taken, in
      their order, each with its own ciphertext and sender. */
  lemma {:induction false} PublishedAreTaken(turns: seq<Turn>)
    ensures Published(Run(turns).log) == HoldsTaken(turns)
  {
    if turns != [] {
      PublishedAreTaken(turns[..|turns| - 1]);
      IteratePublished(Run(turns[..|turns| - 1]), turns[|turns| - 1]);
    }
  }

  lemma SendersEmit(jobs: seq<Job>, e: Effect)
    ensures SendersOf(jobs + JobOf(e)) == SendersOf(jobs) + if e.Publish? then Just(e.done) else multiset{}
  {
    if e.Publish? {
      assert (jobs + JobOf(e))[..|jobs|] == jobs;
    } else {
      assert jobs + JobOf(e) == jobs;
    }
  }

  lemma AddPublished(t: Tally, e: Effect)
    ensures |Add(t, e).published| == |t.published| + |JobOf(e)|
    ensures Add(t, e).taken == t.taken + if e.Publish? then Just(e.done) else multiset{}
  {
  }

  lemma {:induction false} PublishedTally(log: seq<Effect>)
    ensures |TallyOf(log).published| == |Published(log)|
    ensures TallyOf(log).taken == SendersOf(Published(log))
  {
    if log != [] {
      var before, e := log[..|log| - 1], log[|log| - 1];
      PublishedTally(before);
      AddPublished(TallyOf(before), e);
      SendersEmit(Published(before), e);
    }
  }

  /** What the tally of a run counts as taken and published is what the channel
      delivered. */
  lemma TallyCountsHolds(turns: seq<Turn>)
    ensures |TallyOf(Run(turns).log).published| == |HoldsTaken(turns)|
    ensures TallyOf(Run(turns).log).taken == SendersOf(HoldsTaken(turns))
  {
    PublishedAreTaken(turns);
    PublishedTally(Run(turns).log);
  }
}
