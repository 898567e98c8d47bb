/** One `sync` after another, as a state machine over atomic steps (host/src/db/fetch.rs).

    The fetcher spawns one task per missing range; every task fetches, queues its result on
    a bounded channel and ends; the drain loop polls the channel and the live-task counter.
    Steps of tasks, fetcher, shutdown signal and process restart interleave freely: a run is
    any list of events, and an event that is not enabled changes nothing. */
module Syncing {
  import opened Ranges
  import opened Storage
  import opened Counting
  import opened Options

  const BATCH_SIZE: nat := 30
  const CHANNEL_SIZE: nat := 32

  datatype Config = Config(chain: Chain, maxWalSize: nat)

  datatype Msg = Fetched(r: Range, items: seq<Row>) | Failed(r: Range)

  /** A task holds a clone of the counter until it has exited. */
  datatype Worker = Fetching(r: Range) | Sending(msg: Msg) | Leaving | Exited

  datatype Mode = Normal | Interrupted

  /** Where the fetcher is.  `AtRecv`, `AtCount` and `AtTry` are the three reads of
      `get_next_message`: poll the channel, poll the counter, try the channel again. */
  datatype Pc =
    | Idle | Spawning | AtFlag | AtRecv | AtCount | AtTry | Handling(msg: Msg)
    | LoopEnded | Joining | Stopped | Dropped

  datatype State = State(
    core: Core,
    todo: seq<Range>,       // planned, not yet spawned
    workers: seq<Worker>,
    queue: seq<Msg>,
    active: int,            // the live-task counter
    signalled: bool,        // the shutdown signal was raised
    interrupt: bool,        // the interrupt flag shared with the tasks
    mode: Mode,
    pc: Pc,
    saved: Endpoints,       // the fetcher file
    start: Endpoints,       // what was covered when the current sync began
    latest: nat,            // the chain tip of the current sync
    replanned: bool)        // a sync has claimed again what still lay in the channel

  datatype Event =
    | Signal
    | Begin(received: bool, tip: Option<nat>, plan: seq<Range>)
    | Spawn
    | FetchDone(i: nat, items: seq<Row>)
    | FetchFail(i: nat)
    | Send(i: nat)
    | Exit(i: nat)
    | SeeShutdown(i: nat)
    | Poll
    | Handle(received: bool)
    | EndLoop(received: bool)
    | Join
    | Finish
    | Restart

  ghost predicate InOneBatch(e: Endpoints, r: Range) {
    First(e) <= r.lo <= r.hi && (r.lo - First(e)) / BATCH_SIZE == (r.hi - First(e)) / BATCH_SIZE
  }

  /** The batches cut over [first, latest]: every missing height in exactly one range, and
      no range crosses a batch boundary. */
  ghost predicate IsPlan(e: Endpoints, latest: nat, plan: seq<Range>) {
    && (forall i | 0 <= i < |plan| :: InOneBatch(e, plan[i]))
    && forall h: nat :: Tally(plan, h) == if First(e) <= h <= latest && !Covers(e, h) then 1 else 0
  }

  // ----- who holds a height

  function WorkerRange(w: Worker): seq<Range> {
    match w
    case Fetching(r) => [r]
    case Sending(m) => [m.r]
    case _ => []
  }

  function WorkerHolds(h: nat): Worker -> nat { (w: Worker) => Tally(WorkerRange(w), h) }
  function MsgHolds(h: nat): Msg -> nat { (m: Msg) => Tally([m.r], h) }
  function Live(): Worker -> nat { (w: Worker) => if w == Exited then 0 else 1 }

  function InHand(pc: Pc): seq<Range> {
    if pc.Handling? then [pc.msg.r] else []
  }

  /** How many copies of the claim to `h` are on the way: planned, running, queued or in hand. */
  function Outstanding(s: State, h: nat): nat {
    Tally(s.todo, h) + Sum(WorkerHolds(h), s.workers) + Sum(MsgHolds(h), s.queue) + Tally(InHand(s.pc), h)
  }

  function Held(s: State, h: nat): nat {
    (if Covers(s.core.ends, h) then 1 else 0) + Outstanding(s, h)
  }

  /** The heights the current sync is to end with. */
  predicate Target(s: State, h: nat) {
    Covers(s.start, h) || First(s.start) <= h <= s.latest
  }

  /** A sync up to `tip` would claim again what still lies in the channel. */
  ghost predicate Replans(s: State, tip: nat) {
    exists h: nat :: First(s.core.ends) <= h <= tip && !Covers(s.core.ends, h) && Sum(MsgHolds(h), s.queue) > 0
  }

  // ----- steps

  function Fresh(ends: Endpoints, table: multiset<Row>): State {
    State(Core(ends, map[], table, 1), [], [], [], 0, false, false, Normal, Idle, ends, ends, First(ends) - 1, false)
  }

  const INIT := Fresh([], multiset{})

  /** `check_exit_conditions`. */
  function CheckExit(s: State, received: bool): State {
    if s.mode == Normal && received && s.signalled then s.(interrupt := true, mode := Interrupted) else s
  }

  function SpawnOne(s: State, r: Range): State {
    s.(workers := s.workers + [Fetching(r)], active := s.active + 1)
  }

  /** `handle_fetched`. */
  function HandleFetched(c: Config, s: State, msg: Msg): State {
    match msg
    case Fetched(r, items) => s.(core := Commit(s.core, c.maxWalSize, r, items))
    case Failed(r) => if s.mode == Interrupted then s else SpawnOne(s, r)
  }

  function Receive(s: State): State
    requires s.queue != []
  {
    s.(pc := Handling(s.queue[0]), queue := s.queue[1..])
  }

  ghost function Apply(c: Config, s: State, ev: Event): State {
    match ev
    case Signal => s.(signalled := true)
    case Begin(received, tip, plan) =>
      if s.pc != Idle then s else
      var s1 := CheckExit(s, received);
      if s1.mode == Interrupted || tip.None? then s1.(pc := Stopped)
      else if First(s1.core.ends) > tip.value then s1
      else if !IsPlan(s1.core.ends, tip.value, plan) then s1
      else s1.(pc := Spawning, todo := plan, start := s1.core.ends, latest := tip.value,
                   replanned := s1.replanned || Replans(s1, tip.value))
    case Spawn =>
      if s.pc != Spawning then s
      else if s.todo == [] then s.(pc := AtFlag)
      else SpawnOne(s, s.todo[0]).(todo := s.todo[1..])
    case FetchDone(i, items) =>
      if i < |s.workers| && s.workers[i].Fetching? && ExactAnswer(c.chain, s.workers[i].r, items)
      then s.(workers := s.workers[i := Sending(Fetched(s.workers[i].r, items))]) else s
    case FetchFail(i) =>
      if i < |s.workers| && s.workers[i].Fetching?
      then s.(workers := s.workers[i := Sending(Failed(s.workers[i].r))]) else s
    case Send(i) =>
      if i < |s.workers| && s.workers[i].Sending? && |s.queue| < CHANNEL_SIZE
      then s.(queue := s.queue + [s.workers[i].msg], workers := s.workers[i := Leaving]) else s
    case Exit(i) =>
      if i < |s.workers| && s.workers[i].Leaving?
      then s.(workers := s.workers[i := Exited], active := s.active - 1) else s
    case SeeShutdown(i) =>
      if i < |s.workers| && s.workers[i].Fetching? && s.signalled
      then s.(workers := s.workers[i := Leaving], interrupt := true) else s
    case Poll =>
      (match s.pc
       case AtFlag => s.(pc := if s.interrupt then LoopEnded else AtRecv)
       case AtRecv => if s.queue == [] then s.(pc := AtCount) else Receive(s)
       case AtCount => s.(pc := if s.active == 0 then AtTry else AtRecv)
       case AtTry => if s.queue == [] then s.(pc := LoopEnded) else Receive(s)
       case _ => s)
    case Handle(received) =>
      if s.pc.Handling? then HandleFetched(c, CheckExit(s, received), s.pc.msg).(pc := AtFlag) else s
    case EndLoop(received) =>
      if s.pc != LoopEnded then s else
      var s1 := CheckExit(s, received);
      s1.(mode := Normal, pc := if s1.mode == Interrupted then Stopped else Joining)
    case Join =>
      if s.pc == Joining && forall w | w in s.workers :: w == Exited then s.(pc := Idle) else s
    case Finish =>
      if s.pc == Stopped
      then s.(pc := Dropped, saved := s.core.ends,
              core := s.core.(wal := map[], table := s.core.table + multiset(s.core.wal.Items)))
      else s
    case Restart =>
      if s.pc == Dropped then Fresh(s.saved, s.core.table) else s
  }

  ghost function RunFrom(c: Config, s: State, evs: seq<Event>): State {
    if evs == [] then s else Apply(c, RunFrom(c, s, evs[..|evs| - 1]), evs[|evs| - 1])
  }

  ghost function Run(c: Config, evs: seq<Event>): State {
    RunFrom(c, INIT, evs)
  }

  // ----- the invariant

  /** A task has seen a shutdown and the fetcher has not taken up a message since: from
      here on none is handled any more, whatever is in flight. */
  predicate Abandoned(s: State) {
    s.interrupt && !(s.pc.AtRecv? || s.pc.AtCount? || s.pc.AtTry? || s.pc.Handling?)
  }

  /** Every height has at most one holder, and no sought height is lost without a shutdown. */
  ghost predicate HeldOnce(s: State) {
    && (!s.replanned ==> forall h: nat :: Held(s, h) <= 1)
    && (!s.interrupt ==> forall h: nat :: Held(s, h) == if Target(s, h) then 1 else 0)
  }

  ghost predicate GoodRange(r: Range) { 1 <= r.lo <= r.hi }

  ghost predicate GoodMsg(c: Config, m: Msg) {
    GoodRange(m.r) && (m.Fetched? ==> ExactAnswer(c.chain, m.r, m.items))
  }

  ghost predicate GoodWorker(c: Config, w: Worker) {
    (w.Fetching? ==> GoodRange(w.r)) && (w.Sending? ==> GoodMsg(c, w.msg))
  }

  ghost predicate InFlightGood(c: Config, s: State) {
    && (forall i | 0 <= i < |s.todo| :: GoodRange(s.todo[i]))
    && (forall i | 0 <= i < |s.workers| :: GoodWorker(c, s.workers[i]))
    && (forall i | 0 <= i < |s.queue| :: GoodMsg(c, s.queue[i]))
    && (s.pc.Handling? ==> GoodMsg(c, s.pc.msg))
  }

  ghost predicate CoreGood(c: Config, core: Core) {
    && Canonical(core.ends) && !Covers(core.ends, 0)
    && ExactlyOnce(c.chain, core)
    && (c.maxWalSize >= 1 ==> |core.wal| < c.maxWalSize)
    && core.published >= 1
    && (core.published == 1 || core.published == First(core.ends) - 1)
  }

  predicate InSync(pc: Pc) {
    !pc.Idle? && !pc.Stopped? && !pc.Dropped?
  }

  ghost predicate Control(s: State) {
    && s.active == Sum(Live(), s.workers)
    && |s.queue| <= CHANNEL_SIZE
    && (!s.pc.Spawning? ==> s.todo == [])
    && (s.pc.AtTry? ==> s.active == 0)
    && (InSync(s.pc) ==> First(s.start) <= s.latest)
    && ((s.pc.LoopEnded? || s.pc.Joining?) && !s.interrupt ==> s.active == 0 && s.queue == [])
    && ((s.pc.Idle? || s.pc.Stopped? || s.pc.Dropped?) && !s.interrupt ==> s.active == 0 && s.queue == [])
    && (s.pc.Idle? ==> s.active == 0)
    && (s.mode == Interrupted ==> s.interrupt && !s.pc.AtRecv? && !s.pc.AtCount? && !s.pc.AtTry?)
    && (s.interrupt ==> s.signalled)
    && (s.replanned ==> Abandoned(s))
    && (s.pc.Dropped? ==> s.core.wal == map[] && s.saved == s.core.ends)
  }

  ghost predicate Inv(c: Config, s: State) {
    CoreGood(c, s.core) && Canonical(s.start) && InFlightGood(c, s) && HeldOnce(s) && Control(s)
  }

  // ----- every step keeps the invariant

  lemma WorkerUpdate(s: State, i: nat, w: Worker, h: nat)
    requires i < |s.workers|
    ensures Sum(WorkerHolds(h), s.workers[i := w]) + Tally(WorkerRange(s.workers[i]), h)
         == Sum(WorkerHolds(h), s.workers) + Tally(WorkerRange(w), h)
    ensures Sum(Live(), s.workers[i := w]) + Live()(s.workers[i]) == Sum(Live(), s.workers) + Live()(w)
  {
    SumUpdate(WorkerHolds(h), s.workers, i, w);
    SumUpdate(Live(), s.workers, i, w);
  }

  /** A live task keeps the counter above zero. */
  lemma LiveCounts(s: State, i: nat)
    requires Control(s) && i < |s.workers| && s.workers[i] != Exited
    ensures s.active >= 1
  {
    SumAtLeast(Live(), s.workers, i);
  }

  predicate TaskEvent(ev: Event) {
    ev.FetchDone? || ev.FetchFail? || ev.Send? || ev.Exit? || ev.SeeShutdown?
  }

  /** A task's step hands its range on, or drops it after a shutdown. */
  lemma TaskHeld(c: Config, s: State, ev: Event, h: nat)
    requires TaskEvent(ev)
    ensures var s1 := Apply(c, s, ev);
      Held(s1, h) == Held(s, h) || (s1.interrupt && Held(s1, h) <= Held(s, h))
  {
    var s1 := Apply(c, s, ev);
    if s1 != s {
      WorkerUpdate(s, ev.i, s1.workers[ev.i], h);
      if ev.Send? { SumAppend(MsgHolds(h), s.queue, s.workers[ev.i].msg); }
    }
  }

  /** Taking a message moves its range from the queue into the fetcher's hand. */
  lemma ReceiveHeld(s: State, h: nat)
    requires s.queue != [] && !s.pc.Handling?
    ensures Held(Receive(s), h) == Held(s, h)
  {
    assert Sum(MsgHolds(h), s.queue) == MsgHolds(h)(s.queue[0]) + Sum(MsgHolds(h), s.queue[1..]);
  }

  predicate Receives(s: State) {
    (s.pc.AtRecv? || s.pc.AtTry?) && s.queue != []
  }

  /** Nothing changes but where the fetcher is, and that not into or out of a message. */
  predicate MovesOn(s: State, s1: State) {
    s1 == s.(pc := s1.pc) && (s.pc.Handling? || s1.pc.Handling? ==> s1.pc == s.pc)
  }

  lemma PollIs(c: Config, s: State)
    ensures Receives(s) ==> Apply(c, s, Poll) == Receive(s)
    ensures !Receives(s) ==> MovesOn(s, Apply(c, s, Poll))
  {}

  lemma PollHeld(c: Config, s: State, h: nat)
    ensures Held(Apply(c, s, Poll), h) == Held(s, h)
  {
    PollIs(c, s);
    hide Apply;
    if Receives(s) { ReceiveHeld(s, h); }
  }

  lemma SpawnOneFacts(s: State, r: Range, h: nat)
    ensures var s1 := SpawnOne(s, r);
      && Sum(WorkerHolds(h), s1.workers) == Sum(WorkerHolds(h), s.workers) + Tally([r], h)
      && Sum(Live(), s1.workers) == Sum(Live(), s.workers) + 1
  {
    SumAppend(WorkerHolds(h), s.workers, Fetching(r));
    SumAppend(Live(), s.workers, Fetching(r));
  }

  lemma SpawnHeld(c: Config, s: State, h: nat)
    ensures Held(Apply(c, s, Spawn), h) == Held(s, h)
  {
    if s.pc.Spawning? && s.todo != [] {
      SpawnOneFacts(s, s.todo[0], h);
      assert Tally(s.todo, h) == Tally([s.todo[0]], h) + Tally(s.todo[1..], h);
    }
  }

  lemma {:induction false} AllExited(ws: seq<Worker>, h: nat)
    requires Sum(Live(), ws) == 0
    ensures Sum(WorkerHolds(h), ws) == 0
    ensures forall w | w in ws :: w == Exited
  {
    if ws != [] {
      assert Live()(ws[0]) == 0;
      AllExited(ws[1..], h);
      assert ws == [ws[0]] + ws[1..];
    }
  }

  /** With the counter at zero and the channel empty, no range is on the way. */
  lemma NothingLive(s: State, h: nat)
    requires Control(s)
    ensures s.active == 0 && s.queue == [] && s.todo == [] && !s.pc.Handling? ==> Outstanding(s, h) == 0
    ensures s.active == 0 ==> forall w | w in s.workers :: w == Exited
  {
    if s.active == 0 {
      AllExited(s.workers, h);
    }
  }

  /** In its idle place no task lives: only the channel can still hold a height. */
  lemma IdleHeld(s: State, h: nat)
    requires Control(s) && s.pc.Idle?
    ensures Held(s, h) == (if Covers(s.core.ends, h) then 1 else 0) + Sum(MsgHolds(h), s.queue)
  {
    AllExited(s.workers, h);
  }

  /** An idle fetcher without a shutdown is given a tip it has not reached, and a plan for it. */
  ghost predicate Plans(s: State, ev: Event) {
    && s.pc.Idle? && ev.Begin? && s.mode == Normal && !(ev.received && s.signalled) && ev.tip.Some?
    && First(s.core.ends) <= ev.tip.value && IsPlan(s.core.ends, ev.tip.value, ev.plan)
  }

  /** Planning claims the missing heights up to the tip, each once, whatever lies in the channel. */
  lemma BeginHeld(c: Config, s: State, ev: Event, h: nat)
    requires Control(s) && ev.Begin?
    ensures var s1 := Apply(c, s, ev);
      if Plans(s, ev) then
        s1.pc.Spawning? && Held(s1, h) == (if Target(s1, h) then 1 else 0) + Sum(MsgHolds(h), s.queue)
      else
        Held(s1, h) == Held(s, h) && (Target(s1, h) <==> Target(s, h)) && s1.replanned == s.replanned
  {
    if Plans(s, ev) {
      IdleHeld(s, h);
      AllExited(s.workers, h);
    }
  }

  /** A planned sync keeps a height at one holder exactly if no queued range holds it while it
      is missing and sought. */
  lemma PlanOnceIff(c: Config, s: State, ev: Event, h: nat)
    requires Control(s) && Plans(s, ev) && Held(s, h) <= 1
    ensures Held(Apply(c, s, ev), h) <= 1 <==>
      !(First(s.core.ends) <= h <= ev.tip.value && !Covers(s.core.ends, h) && Sum(MsgHolds(h), s.queue) > 0)
  {
    BeginHeld(c, s, ev, h);
    IdleHeld(s, h);
  }

  /** The range in hand is new, so `insert` is never called in its bad case. */
  lemma HandledIsNew(s: State)
    requires HeldOnce(s) && Control(s) && s.pc.Handling?
    ensures forall h | s.pc.msg.r.lo <= h <= s.pc.msg.r.hi :: !Covers(s.core.ends, h)
  {
    var r := s.pc.msg.r;
    forall h | r.lo <= h <= r.hi
      ensures !Covers(s.core.ends, h)
    {
      assert Held(s, h) <= 1;
      assert Tally([r], h) == 1;
    }
  }

  /** A commit moves the range in hand into the covered set. */
  lemma CommitHeld(c: Config, s: State, received: bool, h: nat)
    requires s.pc.Handling? && s.pc.msg.Fetched?
    requires var r := s.pc.msg.r;
      Covers(Commit(s.core, c.maxWalSize, r, s.pc.msg.items).ends, h) <==> Covers(s.core.ends, h) || r.lo <= h <= r.hi
    requires s.pc.msg.r.lo <= h <= s.pc.msg.r.hi ==> !Covers(s.core.ends, h)
    ensures Held(Apply(c, s, Handle(received)), h) == Held(s, h)
  {
    hide Commit;
    var r := s.pc.msg.r;
    assert Tally([r], h) == if r.lo <= h <= r.hi then 1 else 0;
  }

  /** A failed range is claimed again by a new task, or given up if the fetcher is interrupted
      or receives the shutdown now. */
  lemma RetryHeld(c: Config, s: State, received: bool, h: nat)
    requires s.pc.Handling? && s.pc.msg.Failed? && (s.mode == Interrupted ==> s.interrupt)
    ensures var s1, r := Apply(c, s, Handle(received)), s.pc.msg.r;
      if s.mode == Interrupted || (received && s.signalled) then
        s1.interrupt && s1.mode == Interrupted && s1.workers == s.workers && Held(s1, h) + Tally([r], h) == Held(s, h)
      else
        s1.workers == s.workers + [Fetching(r)] && Held(s1, h) == Held(s, h)
  {
    SpawnOneFacts(s, s.pc.msg.r, h);
  }

  lemma FreshHeld(ends: Endpoints, table: multiset<Row>, h: nat)
    requires Canonical(ends)
    ensures var s := Fresh(ends, table); Held(s, h) == if Target(s, h) then 1 else 0
  {}

  lemma TaskControl(c: Config, s: State, ev: Event)
    requires Control(s) && TaskEvent(ev)
    ensures Control(Apply(c, s, ev))
  {
    var s1 := Apply(c, s, ev);
    if s1 != s {
      LiveCounts(s, ev.i);
      WorkerUpdate(s, ev.i, s1.workers[ev.i], 0);
    }
  }

  lemma TaskInFlight(c: Config, s: State, ev: Event)
    requires InFlightGood(c, s) && TaskEvent(ev)
    ensures InFlightGood(c, Apply(c, s, ev))
  {}

  /** `HeldOnce` passes from `s` to `s1` when no height gains a holder, and none is lost
      without the interrupt flag. */
  lemma HeldOncePasses(s: State, s1: State)
    requires HeldOnce(s) && (s.interrupt ==> s1.interrupt) && (s.replanned ==> s1.replanned)
    requires s1.start == s.start && s1.latest == s.latest
    requires forall h: nat :: Held(s1, h) == Held(s, h) || (s1.interrupt && Held(s1, h) <= Held(s, h))
    ensures HeldOnce(s1)
  {
    forall h: nat
      ensures !s1.replanned ==> Held(s1, h) <= 1
      ensures !s1.interrupt ==> Held(s1, h) == if Target(s1, h) then 1 else 0
    {
      assert Held(s1, h) == Held(s, h) || (s1.interrupt && Held(s1, h) <= Held(s, h));
    }
  }

  lemma TaskStep(c: Config, s: State, ev: Event)
    requires Inv(c, s) && TaskEvent(ev)
    ensures Inv(c, Apply(c, s, ev))
  {
    hide CoreGood, InFlightGood, Control;
    var s1 := Apply(c, s, ev);
    TaskControl(c, s, ev);
    TaskInFlight(c, s, ev);
    forall h: nat { TaskHeld(c, s, ev, h); }
    HeldOncePasses(s, s1);
  }

  lemma PollInFlight(c: Config, s: State)
    requires InFlightGood(c, s)
    ensures InFlightGood(c, Apply(c, s, Poll))
  {
    PollIs(c, s);
    hide Apply;
  }

  lemma PollRest(c: Config, s: State)
    requires Control(s) && InFlightGood(c, s)
    ensures Control(Apply(c, s, Poll)) && InFlightGood(c, Apply(c, s, Poll))
  {
    hide InFlightGood, Sum, HandleFetched, Replans, Live, First;
    PollInFlight(c, s);
  }

  lemma PollStep(c: Config, s: State)
    requires Inv(c, s)
    ensures Inv(c, Apply(c, s, Poll))
  {
    hide CoreGood, InFlightGood, Control, Held;
    PollRest(c, s);
    PollIs(c, s);
    hide Apply;
    forall h: nat { PollHeld(c, s, h); }
    HeldOncePasses(s, Apply(c, s, Poll));
  }

  lemma SpawnRest(c: Config, s: State)
    requires Control(s) && InFlightGood(c, s)
    ensures Control(Apply(c, s, Spawn)) && InFlightGood(c, Apply(c, s, Spawn))
  {
    if s.pc.Spawning? && s.todo != [] {
      SpawnOneFacts(s, s.todo[0], 0);
    }
  }

  lemma SpawnStep(c: Config, s: State)
    requires Inv(c, s)
    ensures Inv(c, Apply(c, s, Spawn))
  {
    SpawnRest(c, s);
    hide CoreGood, InFlightGood, Control;
    forall h: nat { SpawnHeld(c, s, h); }
    HeldOncePasses(s, Apply(c, s, Spawn));
  }

  lemma BeginRest(c: Config, s: State, ev: Event)
    requires Control(s) && InFlightGood(c, s) && ev.Begin?
    ensures Control(Apply(c, s, ev)) && InFlightGood(c, Apply(c, s, ev))
  {}

  lemma PlannedHeld(c: Config, s: State, ev: Event, h: nat)
    requires Control(s) && Plans(s, ev) && HeldOnce(s)
    ensures var s1 := Apply(c, s, ev);
      (!s1.replanned ==> Held(s1, h) <= 1) && (!s1.interrupt ==> Held(s1, h) == if Target(s1, h) then 1 else 0)
  {
    BeginHeld(c, s, ev, h);
    if !s.replanned { PlanOnceIff(c, s, ev, h); }
  }

  lemma BeginStep(c: Config, s: State, ev: Event)
    requires Inv(c, s) && ev.Begin?
    ensures Inv(c, Apply(c, s, ev))
  {
    BeginRest(c, s, ev);
    hide CoreGood, InFlightGood, Control, IsPlan;
    var s1 := Apply(c, s, ev);
    forall h: nat
      ensures !s1.replanned ==> Held(s1, h) <= 1
      ensures !s1.interrupt ==> Held(s1, h) == if Target(s1, h) then 1 else 0
    {
      BeginHeld(c, s, ev, h);
      if Plans(s, ev) { PlannedHeld(c, s, ev, h); }
    }
  }

  /** A commit keeps the stored data right and only adds the range in hand. */
  lemma CommitCore(c: Config, core: Core, r: Range, items: seq<Row>)
    requires CoreGood(c, core) && GoodRange(r) && ExactAnswer(c.chain, r, items)
    requires forall h | r.lo <= h <= r.hi :: !Covers(core.ends, h)
    ensures CoreGood(c, Commit(core, c.maxWalSize, r, items))
    ensures forall h: nat :: Covers(Commit(core, c.maxWalSize, r, items).ends, h)
                        <==> Covers(core.ends, h) || r.lo <= h <= r.hi
  {
    UpperEndFree(core.ends, r);
    InsertIsUnion(core.ends, r.lo, r.hi);
    CommitKeepsExactlyOnce(c.chain, core, c.maxWalSize, r, items);
    assert Covers(Inserted(core.ends, r.lo, r.hi), r.lo);
  }

  lemma ReopenedCore(c: Config, core: Core)
    requires CoreGood(c, core) && core.wal == map[]
    ensures CoreGood(c, Core(core.ends, map[], core.table, 1))
  {
    var reopened := Core(core.ends, map[], core.table, 1);
    assert forall row: Row :: Stored(reopened, row) == Stored(core, row);
  }

  /** The last drop moves the log into the table. */
  lemma DroppedCore(c: Config, core: Core)
    requires CoreGood(c, core)
    ensures CoreGood(c, core.(wal := map[], table := core.table + multiset(core.wal.Items)))
  {
    var dropped := core.(wal := map[], table := core.table + multiset(core.wal.Items));
    assert forall row: Row :: Stored(dropped, row) == Stored(core, row);
  }

  lemma CommitRest(c: Config, s: State, received: bool)
    requires Control(s) && InFlightGood(c, s) && s.pc.Handling? && s.pc.msg.Fetched?
    ensures Control(Apply(c, s, Handle(received))) && InFlightGood(c, Apply(c, s, Handle(received)))
  {
    hide Commit;
  }

  lemma CommitsAre(c: Config, s: State, received: bool)
    requires s.pc.Handling? && s.pc.msg.Fetched?
    ensures Apply(c, s, Handle(received)).core == Commit(s.core, c.maxWalSize, s.pc.msg.r, s.pc.msg.items)
  {
    hide Commit;
  }

  lemma GoodInHand(c: Config, s: State)
    requires InFlightGood(c, s) && s.pc.Handling?
    ensures GoodMsg(c, s.pc.msg)
  {}

  lemma CommitStep(c: Config, s: State, received: bool)
    requires Inv(c, s) && s.pc.Handling? && s.pc.msg.Fetched?
    ensures Inv(c, Apply(c, s, Handle(received)))
  {
    hide Commit, InFlightGood;
    var s1 := Apply(c, s, Handle(received));
    CommitsAre(c, s, received);
    CommitRest(c, s, received);
    HandledIsNew(s);
    GoodInHand(c, s);
    CommitCore(c, s.core, s.pc.msg.r, s.pc.msg.items);
    forall h: nat { CommitHeld(c, s, received, h); }
    HeldOncePasses(s, s1);
  }

  lemma RetryStep(c: Config, s: State, received: bool)
    requires Inv(c, s) && s.pc.Handling? && s.pc.msg.Failed?
    ensures Inv(c, Apply(c, s, Handle(received)))
  {
    hide CoreGood;
    SpawnOneFacts(s, s.pc.msg.r, 0);
    forall h: nat { RetryHeld(c, s, received, h); }
    HeldOncePasses(s, Apply(c, s, Handle(received)));
  }

  lemma {:induction false} NoneLive(ws: seq<Worker>)
    requires forall i | 0 <= i < |ws| :: ws[i] == Exited
    ensures Sum(Live(), ws) == 0
  {
    if ws != [] {
      NoneLive(ws[1..]);
    }
  }

  lemma QuietRest(c: Config, s: State, ev: Event)
    requires Control(s) && InFlightGood(c, s) && (ev.Signal? || ev.EndLoop? || ev.Join?)
    ensures Control(Apply(c, s, ev)) && InFlightGood(c, Apply(c, s, ev))
  {
    NothingLive(s, 0);
    if ev.Join? && Apply(c, s, ev) != s {
      assert forall i | 0 <= i < |s.workers| :: s.workers[i] in s.workers;
      NoneLive(s.workers);
    }
  }

  lemma QuietStep(c: Config, s: State, ev: Event)
    requires Inv(c, s) && (ev.Signal? || ev.EndLoop? || ev.Join?)
    ensures Inv(c, Apply(c, s, ev))
  {
    QuietRest(c, s, ev);
    hide CoreGood, InFlightGood, Control, Covers;
    assert forall h: nat :: Held(Apply(c, s, ev), h) == Held(s, h);
    HeldOncePasses(s, Apply(c, s, ev));
  }

  lemma FinishStep(c: Config, s: State)
    requires Inv(c, s)
    ensures Inv(c, Apply(c, s, Finish))
  {
    DroppedCore(c, s.core);
    assert forall h: nat :: Held(Apply(c, s, Finish), h) == Held(s, h);
    HeldOncePasses(s, Apply(c, s, Finish));
  }

  lemma RestartStep(c: Config, s: State)
    requires Inv(c, s)
    ensures Inv(c, Apply(c, s, Restart))
  {
    if s.pc.Dropped? {
      ReopenedCore(c, s.core);
      var s1 := Apply(c, s, Restart);
      forall h: nat
        ensures Held(s1, h) == if Target(s1, h) then 1 else 0
      {
        FreshHeld(s.saved, s.core.table, h);
      }
    }
  }

  lemma StepKeepsInv(c: Config, s: State, ev: Event)
    requires Inv(c, s)
    ensures Inv(c, Apply(c, s, ev))
  {
    match ev
    case Begin(_, _, _) => BeginStep(c, s, ev);
    case Spawn => SpawnStep(c, s);
    case Poll => PollStep(c, s);
    case Handle(received) =>
      if s.pc.Handling? {
        if s.pc.msg.Fetched? {
          CommitStep(c, s, received);
        } else {
          RetryStep(c, s, received);
        }
      }
    case Finish => FinishStep(c, s);
    case Restart => RestartStep(c, s);
    case Signal => QuietStep(c, s, ev);
    case EndLoop(_) => QuietStep(c, s, ev);
    case Join => QuietStep(c, s, ev);
    case _ => TaskStep(c, s, ev);
  }

  lemma InitInv(c: Config)
    ensures Inv(c, INIT)
  {
    assert forall row: Row :: Stored(INIT.core, row) == 0;
    forall h: nat
      ensures Held(INIT, h) == if Target(INIT, h) then 1 else 0
    {
      FreshHeld([], multiset{}, h);
    }
  }

  lemma {:induction false} RunFromInv(c: Config, s: State, evs: seq<Event>)
    requires Inv(c, s)
    ensures Inv(c, RunFrom(c, s, evs))
  {
    if evs != [] {
      RunFromInv(c, s, evs[..|evs| - 1]);
      StepKeepsInv(c, RunFrom(c, s, evs[..|evs| - 1]), evs[|evs| - 1]);
    }
  }

  /** The invariant holds after every run. */
  lemma RunInv(c: Config, evs: seq<Event>)
    ensures Inv(c, Run(c, evs))
  {
    InitInv(c);
    RunFromInv(c, INIT, evs);
  }
}
