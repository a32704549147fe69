/** The paste-once clipboard loop (src/clipboard.rs) as a state machine.  The
    compositor, the job channel and the poll call are the environment: a `Turn`
    is whatever they deliver during one iteration of the loop.  What the loop
    does to the outside is a log of effects. */
module ClipboardModel {
  import opened Wrappers
  import opened Bytes

  /** A completion channel; each `hold_and_wait` call waits on one. */
  type Sender = nat

  datatype Job = Hold(ciphertext: Bytes, done: Option<Sender>) | Shutdown

  datatype Event = Send(mime: string) | Cancelled | OtherEvent

  datatype PollResult = Woken | Interrupted | PollFailed

  /** One iteration's worth of environment.  `dispatchOk`, `flushOk` and a
      failed poll are the three places where the loop returns an error;
      `readReady` is false when `prepare_read` finds queued events. */
  datatype Turn = Turn(
    events: seq<Event>,
    dispatchOk: bool,
    jobs: seq<Job>,
    disconnected: bool,
    flushOk: bool,
    readReady: bool,
    poll: PollResult)

  /** `Write` is the decryption of `ciphertext` going into the reader's pipe;
      `EmptyRead` closes the pipe unwritten.  `Abandon` and `Drop` are a
      selection and a sender going out of scope without being served. */
  datatype Effect =
    | Publish(source: nat, ciphertext: Bytes, done: Option<Sender>)
    | Write(ciphertext: Bytes)
    | EmptyRead
    | Destroy(source: nat)
    | Signal(sender: Sender)
    | Drop(sender: Sender)
    | Abandon(source: nat)
    | Poll(timeout: int)

  datatype Phase = Looping | Exited | Aborted

  datatype State = State(
    phase: Phase,
    running: bool,
    source: Option<nat>,
    held: Option<Bytes>,
    doneTx: Option<Sender>,
    consumed: bool,
    pendingDestroy: bool,
    created: nat,
    log: seq<Effect>)

  const PASTE_ONCE_POLL_MS := 200

  const Initial := State(Looping, true, None, None, None, false, false, 0, [])

  // ---------------------------------------------------------------------
  // Steps.

  function DestroyOf(source: Option<nat>): seq<Effect> {
    if source.Some? then [Destroy(source.value)] else []
  }

  function SignalOf(sender: Option<Sender>): seq<Effect> {
    if sender.Some? then [Signal(sender.value)] else []
  }

  function DropOf(sender: Option<Sender>): seq<Effect> {
    if sender.Some? then [Drop(sender.value)] else []
  }

  function AbandonOf(source: Option<nat>): seq<Effect> {
    if source.Some? then [Abandon(source.value)] else []
  }

  /** Withdraw the selection and tell whoever waits for it.  The destroy pass,
      a Cancelled event and the end of the loop all do this. */
  function TakeDown(s: State): State {
    s.(source := None, held := None, doneTx := None,
    log := s.log + DestroyOf(s.source) + SignalOf(s.doneTx))
  }

  /** `set_selection`. */
  function SetSelection(s: State, ciphertext: Bytes, done: Option<Sender>): State {
    s.(source := Some(s.created), held := Some(ciphertext), doneTx := done,
    pendingDestroy := false, consumed := false, created := s.created + 1,
    log := s.log + DestroyOf(s.source) + [Publish(s.created, ciphertext, done)] + DropOf(s.doneTx))
  }

  predicate IsTextMime(mime: string) {
    "text/plain" <= mime
  }

  function OnSend(s: State, mime: string): State {
    if !IsTextMime(mime) || s.consumed || s.held.None? then s.(log := s.log + [EmptyRead])
    else s.(consumed := true, pendingDestroy := true, log := s.log + [Write(s.held.value)])
  }

  function OnEvent(s: State, e: Event): State {
    match e
    case Send(mime) => OnSend(s, mime)
    case Cancelled => TakeDown(s)
    case OtherEvent => s
  }

  function Dispatch(s: State, events: seq<Event>): State {
    if events == [] then s
    else OnEvent(Dispatch(s, events[..|events| - 1]), events[|events| - 1])
  }

  /** The jobs that one drain takes from the channel: up to the first Shutdown. */
  function Taken(jobs: seq<Job>): seq<Job> {
    if jobs == [] || jobs[0].Shutdown? then [] else [jobs[0]] + Taken(jobs[1..])
  }

  function PublishAll(s: State, holds: seq<Job>): State
    requires forall j <- holds :: j.Hold?
  {
    if holds == [] then s
    else
      var last := holds[|holds| - 1];
      assert forall j <- holds[..|holds| - 1] :: j in holds;
      SetSelection(PublishAll(s, holds[..|holds| - 1]), last.ciphertext, last.done)
  }

  lemma TakenAreHolds(jobs: seq<Job>)
    ensures forall j <- Taken(jobs) :: j.Hold?
  {
  }

  /** The drain of the job channel. */
  function Drain(s: State, jobs: seq<Job>, disconnected: bool): State {
    TakenAreHolds(jobs);
    PublishAll(s, Taken(jobs)).(running := s.running && Shutdown !in jobs && !disconnected)
  }

  /** Leaving the loop with an error: everything still held goes out of scope. */
  function Abort(s: State): State {
    s.(phase := Aborted, source := None, held := None, doneTx := None,
    log := s.log + AbandonOf(s.source) + DropOf(s.doneTx))
  }

  function Timeout(s: State): int {
    if s.pendingDestroy then PASTE_ONCE_POLL_MS else -1
  }

  /** The state that the destroy pass of this iteration finds. */
  function BeforeDestroyPass(s: State, t: Turn): State {
    Drain(Dispatch(s.(pendingDestroy := false), t.events), t.jobs, t.disconnected)
  }

  function AfterDestroyPass(s: State, t: Turn): State {
    var d := BeforeDestroyPass(s, t);
    if s.pendingDestroy then TakeDown(d) else d
  }

  /** From the flush to the end of an iteration. */
  function EndTurn(d: State, t: Turn): State {
    if !t.flushOk then Abort(d)
    else if !d.running then TakeDown(d).(phase := Exited)
    else if !t.readReady then d
    else
      var p := d.(log := d.log + [Poll(Timeout(d))]);
      if t.poll.PollFailed? then Abort(p) else p
  }

  /** One iteration of the loop. */
  function Iterate(s: State, t: Turn): State {
    if !t.dispatchOk then Abort(Dispatch(s.(pendingDestroy := false), t.events))
    else EndTurn(AfterDestroyPass(s, t), t)
  }

  /** The loop over any environment; turns after its end go unused. */
  function Run(turns: seq<Turn>): State {
    if turns == [] then Initial
    else
      var s := Run(turns[..|turns| - 1]);
      if s.phase.Looping? then Iterate(s, turns[|turns| - 1]) else s
  }
}
