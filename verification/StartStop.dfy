/** When a sync starts, what it plans, and how a shutdown ends it (host/src/db/fetch.rs), in the
    fields of the state. */
module StartStop {
  import opened Ranges
  import opened Storage
  import opened Counting
  import opened Syncing
  import opened SyncRuns
  import opened Options

  // ----- starting

  /** An idle fetcher that has received no shutdown starts a sync exactly when some height from
      the first missing one to the tip is not stored, and then with the whole plan before it;
      otherwise nothing changes. */
  lemma SyncStartsIff(c: Config, s: State, received: bool, tip: nat, plan: seq<Range>)
    requires s.pc.Idle? && s.mode == Normal && !(received && s.signalled)
    requires Canonical(s.core.ends) && IsPlan(s.core.ends, tip, plan)
    ensures var s1 := Apply(c, s, Begin(received, Some(tip), plan));
      if exists h: nat :: First(s.core.ends) <= h <= tip && !Covers(s.core.ends, h) then
        && s1.pc.Spawning? && s1.todo == plan && s1.latest == tip && s1.start == s.core.ends
        && s1.core == s.core && s1.workers == s.workers && s1.queue == s.queue && s1.active == s.active
        && s1.mode == Normal && s1.interrupt == s.interrupt && s1.signalled == s.signalled
      else
        s1 == s
  {
    CoversFromFirst(s.core.ends, First(s.core.ends));
    hide IsPlan, Replans;
    if First(s.core.ends) <= tip {
      assert !Covers(s.core.ends, First(s.core.ends));
    }
  }

  lemma {:induction false} TallyAt(rs: seq<Range>, h: nat, i: nat)
    requires i < |rs| && rs[i].lo <= h <= rs[i].hi
    ensures Tally(rs, h) >= 1
    ensures forall j | 0 <= j < |rs| && j != i && rs[j].lo <= h <= rs[j].hi :: Tally(rs, h) >= 2
  {
    if i > 0 {
      TallyAt(rs[1..], h, i - 1);
      forall j | 0 <= j < |rs| && j != i && rs[j].lo <= h <= rs[j].hi
        ensures Tally(rs, h) >= 2
      {
        if j > 0 { assert rs[1..][j - 1] == rs[j]; }
      }
    } else {
      forall j | 0 < j < |rs| && rs[j].lo <= h <= rs[j].hi
        ensures Tally(rs, h) >= 2
      {
        TallyAt(rs[1..], h, j - 1);
      }
    }
  }

  lemma {:induction false} TallyNone(rs: seq<Range>, h: nat)
    requires forall i | 0 <= i < |rs| :: !(rs[i].lo <= h <= rs[i].hi)
    ensures Tally(rs, h) == 0
  {
    if rs != [] { TallyNone(rs[1..], h); }
  }

  /** A plan cuts the missing heights up to the tip into disjoint ranges of at most 30 heights. */
  lemma PlanPartitions(e: Endpoints, tip: nat, plan: seq<Range>)
    requires IsPlan(e, tip, plan)
    ensures forall i | 0 <= i < |plan| :: plan[i].lo <= plan[i].hi < plan[i].lo + 30
    ensures forall i, j | 0 <= i < j < |plan| :: plan[i].hi < plan[j].lo || plan[j].hi < plan[i].lo
    ensures forall h: nat ::
      (exists i :: 0 <= i < |plan| && plan[i].lo <= h <= plan[i].hi) <==> First(e) <= h <= tip && !Covers(e, h)
  {
    forall i | 0 <= i < |plan|
      ensures plan[i].lo <= plan[i].hi < plan[i].lo + 30
    {
      assert InOneBatch(e, plan[i]);
    }
    forall h: nat
      ensures (exists i :: 0 <= i < |plan| && plan[i].lo <= h <= plan[i].hi) <==> Tally(plan, h) > 0
      ensures forall i, j | 0 <= i < j < |plan| && plan[i].lo <= h <= plan[i].hi && plan[j].lo <= h <= plan[j].hi :: Tally(plan, h) >= 2
    {
      if i :| 0 <= i < |plan| && plan[i].lo <= h <= plan[i].hi {
        TallyAt(plan, h, i);
      } else {
        TallyNone(plan, h);
      }
    }
    forall i, j | 0 <= i < j < |plan|
      ensures plan[i].hi < plan[j].lo || plan[j].hi < plan[i].lo
    {
      var h := if plan[i].lo < plan[j].lo then plan[j].lo else plan[i].lo;
      assert Tally(plan, h) <= 1;
    }
  }

  // ----- the tasks

  /** A full channel of 32 messages, and nothing else, keeps a task from sending. */
  lemma SendWaitsIff(c: Config, s: State, i: nat)
    requires Control(s) && i < |s.workers| && s.workers[i].Sending?
    ensures Apply(c, s, Send(i)) == s <==> |s.queue| == 32
    ensures |s.queue| < 32 ==> Apply(c, s, Send(i)).queue == s.queue + [s.workers[i].msg]
  {
    if |s.queue| < 32 {
      assert Apply(c, s, Send(i)).workers[i] == Leaving;
    }
  }

  /** A failed fetch comes back to the fetcher and is fetched again by a new task. */
  lemma FailedIsRetried(c: Config, s: State, i: nat)
    requires s.pc.AtRecv? && s.queue == [] && s.mode == Normal && i < |s.workers| && s.workers[i].Fetching?
    ensures var s1 := Apply(c, Apply(c, Apply(c, Apply(c, s, FetchFail(i)), Send(i)), Poll), Handle(false));
      s1 == s.(pc := AtFlag, workers := s.workers[i := Leaving] + [Fetching(s.workers[i].r)], active := s.active + 1)
  {
    hide Commit, IsPlan, Replans, ExactAnswer;
    var s2 := Apply(c, Apply(c, s, FetchFail(i)), Send(i));
    assert s2 == s.(queue := [Failed(s.workers[i].r)], workers := s.workers[i := Leaving]);
    assert Apply(c, s2, Poll) == s2.(queue := [], pc := Handling(Failed(s.workers[i].r)));
  }

  // ----- a shutdown

  /** A received shutdown sets flag and mode at each of the three places where the fetcher looks
      for it; the message in hand is still stored if it is an answer, and never fetched again. */
  lemma ReceivedShutdownStops(c: Config, s: State, tip: Option<nat>, plan: seq<Range>)
    requires s.mode == Normal && s.signalled
    ensures s.pc.Idle? ==> Apply(c, s, Begin(true, tip, plan)) == s.(pc := Stopped, interrupt := true, mode := Interrupted)
    ensures s.pc.LoopEnded? ==> Apply(c, s, EndLoop(true)) == s.(pc := Stopped, interrupt := true)
    ensures s.pc.Handling? ==>
      var s1 := Apply(c, s, Handle(true));
      s1 == s.(pc := AtFlag, interrupt := true, mode := Interrupted, core := s1.core)
      && s1.core == if s.pc.msg.Fetched? then Commit(s.core, c.maxWalSize, s.pc.msg.r, s.pc.msg.items) else s.core
  {
    hide Commit;
  }

  /** Once interrupted, a failed range is never spawned again. */
  lemma InterruptedNeverRetries(c: Config, s: State, received: bool)
    requires s.pc.Handling? && s.pc.msg.Failed?
    ensures var s1 := Apply(c, s, Handle(received));
      if s.mode == Interrupted || (received && s.signalled) then
        s1.workers == s.workers && s1.active == s.active && s1.core == s.core
      else
        s1.workers == s.workers + [Fetching(s.pc.msg.r)] && s1.active == s.active + 1 && s1.core == s.core
  {}

  /** The one event that moves the fetcher on from here. */
  predicate Moves(pc: Pc, ev: Event) {
    match pc
    case AtFlag => ev.Poll?
    case LoopEnded => ev.EndLoop?
    case _ => ev.Finish?
  }

  /** The fetcher and its data are as before; tasks may have gone on. */
  predicate Waited(s: State, s1: State) {
    s1.pc == s.pc && s1.mode == s.mode && s1.core == s.core && (s.interrupt ==> s1.interrupt)
  }

  lemma WaitsOnce(c: Config, s: State, ev: Event)
    requires (s.pc.AtFlag? || s.pc.LoopEnded? || s.pc.Stopped?) && !Moves(s.pc, ev)
    ensures Waited(s, Apply(c, s, ev))
  {}

  lemma {:induction false} Waits(c: Config, s: State, evs: seq<Event>)
    requires s.pc.AtFlag? || s.pc.LoopEnded? || s.pc.Stopped?
    requires forall ev | ev in evs :: !Moves(s.pc, ev)
    ensures Waited(s, RunFrom(c, s, evs))
  {
    hide Apply, Moves;
    if evs != [] {
      var last := |evs| - 1;
      assert evs[last] in evs;
      assert forall ev | ev in evs[..last] :: ev in evs;
      Waits(c, s, evs[..last]);
      WaitsOnce(c, RunFrom(c, s, evs[..last]), evs[last]);
    }
  }

  /** From an interrupted message on, the fetcher's next three moves, whatever happens in
      between, end the loop, stop the sync, save the vector and empty the log into the table. */
  lemma ShutdownReachesDrop(c: Config, s: State, a: seq<Event>, b: seq<Event>, received: bool, d: seq<Event>)
    requires s.pc.AtFlag? && s.interrupt && s.mode == Interrupted
    requires forall ev | ev in a :: !Moves(AtFlag, ev)
    requires forall ev | ev in b :: !Moves(LoopEnded, ev)
    requires forall ev | ev in d :: !Moves(Stopped, ev)
    ensures var ended := Apply(c, RunFrom(c, s, a), Poll);
      var stopped := Apply(c, RunFrom(c, ended, b), EndLoop(received));
      var dropped := Apply(c, RunFrom(c, stopped, d), Finish);
      && ended.pc.LoopEnded? && stopped.pc.Stopped? && dropped.pc.Dropped?
      && dropped.saved == s.core.ends && dropped.core.ends == s.core.ends && dropped.core.wal == map[]
      && dropped.core.table == s.core.table + multiset(s.core.wal.Items)
  {
    Waits(c, s, a);
    var ended := Apply(c, RunFrom(c, s, a), Poll);
    Waits(c, ended, b);
    var stopped := Apply(c, RunFrom(c, ended, b), EndLoop(received));
    Waits(c, stopped, d);
  }

  /** A drained sync can always be brought back to the idle place, everything sought stored. */
  lemma CanGoIdle(c: Config, s: State) returns (evs: seq<Event>)
    requires Inv(c, s) && InLoop(s.pc) && !s.interrupt
    ensures var s1 := Apply(c, Apply(c, RunFrom(c, s, evs), EndLoop(false)), Join);
      s1.pc.Idle? && !s1.interrupt && forall h: nat :: Covers(s1.core.ends, h) <==> Target(s, h)
  {
    evs := CanDrain(c, s);
    RunFromInv(c, s, evs);
    var s1 := RunFrom(c, s, evs);
    DrainedCovers(c, s1);
    hide Covers, Target, Inv;
  }
}
