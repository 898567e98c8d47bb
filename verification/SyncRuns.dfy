/** What the invariant of Syncing.dfy gives for whole runs. */
module SyncRuns {
  import opened Ranges
  import opened Storage
  import opened Counting
  import opened Syncing
  import opened Options

  /** In every reachable state a height is covered or claimed by one planned, running, queued
      or handled range, never by two, unless some sync has claimed again what still lay in the
      channel; without a shutdown, exactly the sought heights are. */
  lemma EveryHeightOnce(c: Config, evs: seq<Event>, h: nat)
    ensures var s := Run(c, evs);
      && (!s.replanned ==> Held(s, h) <= 1)
      && (!s.interrupt ==> Held(s, h) == if Target(s, h) then 1 else 0)
  {
    RunInv(c, evs);
  }

  /** The exception, exactly: planning a sync keeps every height at one holder if and only if no
      queued range holds a missing height up to the tip. */
  lemma PlanKeepsOnceIff(c: Config, evs: seq<Event>, ev: Event)
    requires !Run(c, evs).replanned && Plans(Run(c, evs), ev)
    ensures var s := Run(c, evs);
      (forall h: nat :: Held(Apply(c, s, ev), h) <= 1) <==>
      (forall h: nat | First(s.core.ends) <= h <= ev.tip.value && !Covers(s.core.ends, h) :: Sum(MsgHolds(h), s.queue) == 0)
  {
    RunInv(c, evs);
    var s := Run(c, evs);
    forall h: nat
      ensures Held(Apply(c, s, ev), h) <= 1 <==>
        !(First(s.core.ends) <= h <= ev.tip.value && !Covers(s.core.ends, h) && Sum(MsgHolds(h), s.queue) > 0)
    {
      PlanOnceIff(c, s, ev, h);
    }
    hide Held, Plans, Inv;
  }

  /** Table and log hold each chain row of a covered height once and nothing else; after the
      final drop the table alone does; the log stays below its limit. */
  lemma RowsExactlyOnce(c: Config, evs: seq<Event>, row: Row)
    ensures var s := Run(c, evs);
      && Stored(s.core, row) == Due(c.chain, s.core.ends, row)
      && (s.pc.Dropped? ==> s.core.table[row] == Due(c.chain, s.saved, row))
      && (c.maxWalSize >= 1 ==> |s.core.wal| < c.maxWalSize)
  {
    RunInv(c, evs);
  }

  /** Where a row is, exactly: in the table once it is covered and has left the log. */
  lemma TableHoldsRow(c: Config, evs: seq<Event>, row: Row)
    ensures var core := Run(c, evs).core;
      core.table[row] == if row in c.chain.Items && Covers(core.ends, row.0.height) && row.0 !in core.wal then 1 else 0
  {
    RowsExactlyOnce(c, evs, row);
    var core := Run(c, evs).core;
    if row.0 in core.wal {
      var logged := (row.0, core.wal[row.0]);
      assert logged in core.wal.Items;
      RowsExactlyOnce(c, evs, logged);
    }
    assert row in core.wal.Items <==> row.0 in core.wal && core.wal[row.0] == row.1;
    assert row in c.chain.Items <==> row.0 in c.chain && c.chain[row.0] == row.1;
  }

  /** The table alone, which is all the host reads, holds the whole of a covered block if and
      only if no row of the block is still in the log. */
  lemma TableHoldsBlockIff(c: Config, evs: seq<Event>, h: nat)
    requires Covers(Run(c, evs).core.ends, h)
    ensures var core := Run(c, evs).core;
      (forall row: Row | row in c.chain.Items && row.0.height == h :: core.table[row] == 1)
      <==> forall k | k in core.wal :: k.height != h
  {
    var core := Run(c, evs).core;
    forall row: Row { TableHoldsRow(c, evs, row); }
    if k :| k in core.wal && k.height == h {
      var row := (k, core.wal[k]);
      assert row in core.wal.Items;
      RowsExactlyOnce(c, evs, row);
    }
  }

  /** Every `insert` of every run is the union with a range that was wholly missing. */
  lemma InsertsAreUnions(c: Config, evs: seq<Event>, received: bool, h: nat)
    requires Run(c, evs).pc.Handling? && Run(c, evs).pc.msg.Fetched?
    ensures var s := Run(c, evs);
      var r := s.pc.msg.r;
      var s1 := Apply(c, s, Handle(received));
      && (r.lo <= h <= r.hi ==> !Covers(s.core.ends, h))
      && (Covers(s1.core.ends, h) <==> Covers(s.core.ends, h) || r.lo <= h <= r.hi)
      && Canonical(s1.core.ends)
  {
    RunInv(c, evs);
    var s := Run(c, evs);
    HandledIsNew(s);
    CommitsAre(c, s, received);
    CommitCore(c, s.core, s.pc.msg.r, s.pc.msg.items);
  }

  /** The drain loop has ended. */
  predicate Drained(s: State) {
    (s.pc.LoopEnded? || s.pc.Joining?) && !s.interrupt
  }

  lemma DrainedCovers(c: Config, s: State)
    requires Inv(c, s) && Drained(s)
    ensures s.active == 0 && s.queue == [] && (forall w | w in s.workers :: w == Exited)
    ensures forall h: nat :: Covers(s.core.ends, h) <==> Target(s, h)
  {
    NothingLive(s, 0);
    forall h: nat
      ensures Covers(s.core.ends, h) <==> Target(s, h)
    {
      NothingLive(s, h);
      assert Held(s, h) == if Target(s, h) then 1 else 0;
    }
  }

  /** Without a shutdown the drain loop ends only when no task lives, the channel is empty and
      every planned range has been inserted. */
  lemma DrainedMeansDone(c: Config, evs: seq<Event>)
    requires Drained(Run(c, evs))
    ensures var s := Run(c, evs);
      && s.active == 0 && s.queue == [] && (forall w | w in s.workers :: w == Exited)
      && forall h: nat :: Covers(s.core.ends, h) <==> Target(s, h)
  {
    RunInv(c, evs);
    DrainedCovers(c, Run(c, evs));
  }

  /** However tasks interleave, fail and finish: two syncs that began with the same vector and
      ran to the same tip end with the same vector and the same stored rows. */
  lemma OrderIrrelevant(c: Config, evs: seq<Event>, evs': seq<Event>)
    requires Drained(Run(c, evs)) && Drained(Run(c, evs'))
    requires Run(c, evs).start == Run(c, evs').start && Run(c, evs).latest == Run(c, evs').latest
    ensures Run(c, evs).core.ends == Run(c, evs').core.ends
    ensures forall row: Row :: Stored(Run(c, evs).core, row) == Stored(Run(c, evs').core, row)
  {
    DrainedMeansDone(c, evs);
    DrainedMeansDone(c, evs');
    RunInv(c, evs);
    RunInv(c, evs');
    var s, s' := Run(c, evs), Run(c, evs');
    assert forall h: nat :: Target(s, h) <==> Target(s', h);
    CanonicalUnique(s.core.ends, s'.core.ends);
  }

  lemma RunStart(c: Config, evs: seq<Event>)
    ensures var s := Run(c, evs);
      Canonical(s.start) && Canonical(s.core.ends) && (InSync(s.pc) ==> First(s.start) <= s.latest)
  {
    RunInv(c, evs);
  }

  lemma TargetComplete(s: State)
    requires Canonical(s.start) && First(s.start) <= s.latest
    ensures s.start == [] || s.start[0] <= 1 ==> forall h: nat | 1 <= h <= s.latest :: Target(s, h)
    ensures s.start != [] && s.start[0] > 1 ==> !Target(s, 1) && 1 <= s.latest
  {
    FirstIsLeastMissingIff(s.start);
    CoversFromFirst(s.start, 1);
  }

  /** A drained sync has everything from 1 to the tip exactly when its starting vector was
      empty or reached down to 1. */
  lemma SyncCompleteIff(c: Config, evs: seq<Event>)
    requires Drained(Run(c, evs))
    ensures var s := Run(c, evs);
      (forall h: nat | 1 <= h <= s.latest :: Covers(s.core.ends, h)) <==> s.start == [] || s.start[0] <= 1
  {
    var s := Run(c, evs);
    DrainedMeansDone(c, evs);
    RunStart(c, evs);
    TargetComplete(s);
    if s.start != [] && s.start[0] > 1 {
      assert !Covers(s.core.ends, 1);
    } else {
      forall h: nat | 1 <= h <= s.latest
        ensures Covers(s.core.ends, h)
      {
        assert Target(s, h);
      }
    }
  }

  lemma FirstAfterFill(a: Endpoints, b: Endpoints, latest: nat)
    requires Canonical(a) && Canonical(b) && First(a) <= latest
    requires forall h: nat :: Covers(b, h) <==> Covers(a, h) || First(a) <= h <= latest
    ensures First(b) > latest && (First(b) == latest + 1 <==> !Covers(a, latest + 1))
  {
    assert Covers(b, latest);
    assert Covers(b, b[0]);
    CoversFromFirst(a, b[0]);
    if a != [] {
      assert Covers(a, a[0]);
      CoversFromFirst(b, a[0]);
    }
    CoversFromFirst(b, latest);
    SolidRun(b, latest);
    CoversFromFirst(b, latest + 1);
  }

  /** After a drained sync `first` lies beyond the tip, and just behind it unless the vector
      already held the height after the tip.  Together with `SyncCompleteIff`: the claim can be wrong. */
  lemma SyncClaimsTip(c: Config, evs: seq<Event>)
    requires Drained(Run(c, evs))
    ensures var s := Run(c, evs);
      First(s.core.ends) > s.latest && (First(s.core.ends) == s.latest + 1 <==> !Covers(s.start, s.latest + 1))
  {
    var s := Run(c, evs);
    DrainedMeansDone(c, evs);
    RunStart(c, evs);
    FirstAfterFill(s.start, s.core.ends, s.latest);
  }

  // ----- the published height

  ghost predicate PublishedMoves(before: Core, after: Core) {
    && Covers(after.ends, 1) && before.published <= after.published
    && (after.published == before.published || LeastMissing(after.ends, after.published + 1))
    && (LeastMissing(before.ends, before.published + 1) ==> LeastMissing(after.ends, after.published + 1))
  }

  lemma OnlyCommitsCover(c: Config, s: State, ev: Event)
    requires !(ev.Handle? && s.pc.Handling? && s.pc.msg.Fetched?) && !ev.Restart?
    ensures var s1 := Apply(c, s, ev);
      s1.core.ends == s.core.ends && s1.core.published == s.core.published
  {
    hide Commit;
  }

  lemma PublishedCommit(c: Config, core: Core, r: Range, items: seq<Row>)
    requires CoreGood(c, core) && Covers(core.ends, 1) && GoodRange(r)
    requires forall h | r.lo <= h <= r.hi :: !Covers(core.ends, h)
    ensures PublishedMoves(core, Commit(core, c.maxWalSize, r, items))
  {
    hide Inserted;
    UpperEndFree(core.ends, r);
    InsertIsUnion(core.ends, r.lo, r.hi);
    FirstGrows(core.ends, Inserted(core.ends, r.lo, r.hi));
    PublishedExactIff(core, c.maxWalSize, r, items);
  }

  /** Once height 1 is covered, a step keeps it covered and never lowers the published height;
      a newly published height is the end of the complete prefix. */
  lemma PublishedStep(c: Config, s: State, ev: Event)
    requires Inv(c, s) && Covers(s.core.ends, 1) && !ev.Restart?
    ensures var s1 := Apply(c, s, ev); PublishedMoves(s.core, s1.core)
  {
    if ev.Handle? && s.pc.Handling? && s.pc.msg.Fetched? {
      CommitsAre(c, s, ev.received);
      HandledIsNew(s);
      PublishedCommit(c, s.core, s.pc.msg.r, s.pc.msg.items);
    } else {
      OnlyCommitsCover(c, s, ev);
    }
  }

  lemma PublishedTwice(a: Core, b: Core, c: Core)
    requires PublishedMoves(a, b) && PublishedMoves(b, c)
    ensures PublishedMoves(a, c)
  {}

  lemma {:induction false} PublishedNeverFalls(c: Config, s: State, evs: seq<Event>)
    requires Inv(c, s) && Covers(s.core.ends, 1) && Restart !in evs
    ensures PublishedMoves(s.core, RunFrom(c, s, evs).core)
  {
    if evs != [] {
      var before, ev := evs[..|evs| - 1], evs[|evs| - 1];
      PublishedNeverFalls(c, s, before);
      RunFromInv(c, s, before);
      PublishedStep(c, RunFrom(c, s, before), ev);
      PublishedTwice(s.core, RunFrom(c, s, before).core, RunFrom(c, s, evs).core);
    }
  }

  /** Exactly when a step lowers the published height: the first commit below the first stored
      range that leaves a hole before it, or a restart. */
  lemma PublishedFallsIff(c: Config, evs: seq<Event>, ev: Event)
    ensures var s := Run(c, evs);
      Apply(c, s, ev).core.published < s.core.published <==>
        && s.core.published > 1
        && ((ev.Restart? && s.pc.Dropped?)
            || (ev.Handle? && s.pc.Handling? && s.pc.msg.Fetched? && s.core.ends != [] && s.pc.msg.r.hi + 1 < s.core.ends[0]))
  {
    RunInv(c, evs);
    var s := Run(c, evs);
    if ev.Handle? && s.pc.Handling? && s.pc.msg.Fetched? {
      CommitsAre(c, s, ev.received);
      HandledIsNew(s);
      CommitLowersIff(s.core, c.maxWalSize, s.pc.msg.r, s.pc.msg.items);
    } else if !ev.Restart? {
      OnlyCommitsCover(c, s, ev);
    }
  }

  // ----- heights below the first range

  /** Nothing below the first stored range is claimed by anyone. */
  ghost predicate Skipped(s: State) {
    s.core.ends != [] && forall h: nat | h < s.core.ends[0] :: Held(s, h) == 0
  }

  lemma SkippedBegin(c: Config, s: State, ev: Event, h: nat)
    requires Control(s) && ev.Begin? && Canonical(s.core.ends) && s.core.ends != []
    requires h < s.core.ends[0] && Held(s, h) == 0
    ensures Held(Apply(c, s, ev), h) == 0
  {}

  lemma SkippedHeld(c: Config, s: State, ev: Event, h: nat)
    requires Control(s) && Canonical(s.core.ends) && s.core.ends != [] && h < s.core.ends[0] && Held(s, h) == 0
    requires !(ev.Handle? && s.pc.Handling? && s.pc.msg.Fetched?) && !ev.Restart?
    ensures Held(Apply(c, s, ev), h) == 0
  {
    if ev.Begin? { SkippedBegin(c, s, ev, h); }
    else if ev.Spawn? { SpawnHeld(c, s, h); }
    else if ev.Poll? { PollHeld(c, s, h); }
    else if ev.Handle? && s.pc.Handling? { RetryHeld(c, s, ev.received, h); }
    else if TaskEvent(ev) { TaskHeld(c, s, ev, h); }
  }

  lemma SkippedCommit(c: Config, s: State, received: bool)
    requires Inv(c, s) && Skipped(s) && s.pc.Handling? && s.pc.msg.Fetched?
    ensures var s1 := Apply(c, s, Handle(received)); Skipped(s1) && s1.core.ends[0] == s.core.ends[0]
  {
    hide Commit;
    var s1 := Apply(c, s, Handle(received));
    var r := s.pc.msg.r;
    var e, e1 := s.core.ends, s1.core.ends;
    HandledIsNew(s);
    CommitsAre(c, s, received);
    CommitCore(c, s.core, r, s.pc.msg.items);
    assert Covers(e, e[0]) && Covers(e1, e1[0]);
    CoversFromFirst(e1, e[0]);
    CoversFromFirst(e, e1[0]);
    assert Tally([r], r.lo) == 1;
    assert Held(s, r.lo) > 0;
    forall h: nat | h < e[0]
      ensures Held(s1, h) == 0
    {
      CommitHeld(c, s, received, h);
    }
  }

  lemma SkippedStep(c: Config, s: State, ev: Event)
    requires Inv(c, s) && Skipped(s)
    ensures Skipped(Apply(c, s, ev)) && Apply(c, s, ev).core.ends[0] == s.core.ends[0]
  {
    if ev.Handle? && s.pc.Handling? && s.pc.msg.Fetched? {
      SkippedCommit(c, s, ev.received);
    } else if ev.Restart? {
      forall h: nat { CoversFromFirst(s.core.ends, h); }
    } else {
      OnlyCommitsCover(c, s, ev);
      forall h: nat | h < s.core.ends[0] { SkippedHeld(c, s, ev, h); }
    }
  }

  /** What `first` has jumped over is never fetched, in any continuation of the run. */
  lemma {:induction false} SkippedForever(c: Config, s: State, evs: seq<Event>, h: nat)
    requires Inv(c, s) && Skipped(s) && h < s.core.ends[0]
    ensures var s1 := RunFrom(c, s, evs);
      Skipped(s1) && s1.core.ends[0] == s.core.ends[0] && !Covers(s1.core.ends, h)
  {
    if evs == [] {
      CoversFromFirst(s.core.ends, h);
    } else {
      var before := evs[..|evs| - 1];
      SkippedForever(c, s, before, h);
      RunFromInv(c, s, before);
      SkippedStep(c, RunFrom(c, s, before), evs[|evs| - 1]);
    }
    RunFromInv(c, s, evs);
    CoversFromFirst(RunFrom(c, s, evs).core.ends, h);
  }

  // ----- runs in which the tempting claims fail

  const EMPTY_CHAIN: Config := Config(map[], 1)

  lemma Then(c: Config, evs: seq<Event>, ev: Event) returns (evs': seq<Event>)
    ensures evs' == evs + [ev] && Run(c, evs') == Apply(c, Run(c, evs), ev)
  {
    evs' := evs + [ev];
    assert evs'[..|evs|] == evs;
  }

  const TWO_BATCHES := [Range(1, 30), Range(31, 60)]

  lemma TwoBatchesPlan()
    ensures IsPlan([], 60, TWO_BATCHES)
  {
    forall h: nat
      ensures Tally(TWO_BATCHES, h) == if 1 <= h <= 60 then 1 else 0
    {
      TallyAppend([Range(1, 30)], [Range(31, 60)], h);
      assert TWO_BATCHES == [Range(1, 30)] + [Range(31, 60)];
    }
    assert forall h: nat :: !Covers([], h);
  }

  /** Both batches are spawned. */
  const TWO_SPAWNED: State := INIT.(pc := AtFlag,
    workers := [Fetching(Range(1, 30)), Fetching(Range(31, 60))], active := 2, latest := 60)

  lemma TwoSpawned() returns (evs: seq<Event>)
    ensures Run(EMPTY_CHAIN, evs) == TWO_SPAWNED
  {
    TwoBatchesPlan();
    evs := Then(EMPTY_CHAIN, [], Begin(false, Some(60), TWO_BATCHES));
    evs := Then(EMPTY_CHAIN, evs, Spawn);
    evs := Then(EMPTY_CHAIN, evs, Spawn);
    evs := Then(EMPTY_CHAIN, evs, Spawn);
  }

  lemma SecondSent() returns (evs: seq<Event>)
    ensures Run(EMPTY_CHAIN, evs) == TWO_SPAWNED.(workers := [Fetching(Range(1, 30)), Leaving], queue := [Fetched(Range(31, 60), [])])
  {
    evs := TwoSpawned();
    assert ExactAnswer(EMPTY_CHAIN.chain, Range(31, 60), []);
    evs := Then(EMPTY_CHAIN, evs, FetchDone(1, []));
    evs := Then(EMPTY_CHAIN, evs, Send(1));
  }

  /** The second batch is stored, the first is still being fetched. */
  const SECOND_STORED: State := TWO_SPAWNED.(workers := [Fetching(Range(1, 30)), Leaving],
    core := Core([31, 60], map[], multiset{}, 60))

  lemma SecondStored() returns (evs: seq<Event>)
    ensures Run(EMPTY_CHAIN, evs) == SECOND_STORED
  {
    evs := SecondSent();
    evs := Then(EMPTY_CHAIN, evs, Poll);
    evs := Then(EMPTY_CHAIN, evs, Poll);
    evs := Then(EMPTY_CHAIN, evs, Handle(false));
  }

  lemma ShutDown(c: Config, before: seq<Event>, s: State) returns (evs: seq<Event>)
    requires Run(c, before) == s && s.pc.LoopEnded? && s.mode == Normal && s.signalled
    requires s.core.wal == map[]
    ensures Run(c, evs) == Fresh(s.core.ends, s.core.table)
  {
    evs := Then(c, before, EndLoop(true));
    evs := Then(c, evs, Finish);
    evs := Then(c, evs, Restart);
  }

  /** Skipping happens: the second of two batches is inserted, a shutdown cancels the first, and
      the reopened process takes 61 for its first missing height with 1..30 never fetched. */
  lemma SkippingHappens() returns (evs: seq<Event>)
    ensures var s := Run(EMPTY_CHAIN, evs);
      Inv(EMPTY_CHAIN, s) && s.pc.Idle? && !s.interrupt && Skipped(s) && s.core.ends == [31, 60] && First(s.core.ends) == 61
  {
    evs := SecondStored();
    evs := Then(EMPTY_CHAIN, evs, Signal);
    evs := Then(EMPTY_CHAIN, evs, SeeShutdown(0));
    evs := Then(EMPTY_CHAIN, evs, Poll);
    evs := ShutDown(EMPTY_CHAIN, evs, Run(EMPTY_CHAIN, evs));
    RunInv(EMPTY_CHAIN, evs);
    forall h: nat | h < 31
      ensures Held(Run(EMPTY_CHAIN, evs), h) == 0
    {
      CoversFromFirst([31, 60], h);
    }
  }

  /** Both tasks have ended, the first because it saw a shutdown. */
  const BOTH_ENDED: State := TWO_SPAWNED.(workers := [Exited, Exited], active := 0,
    queue := [Fetched(Range(31, 60), [])], signalled := true, interrupt := true)

  lemma BothEnded() returns (evs: seq<Event>)
    ensures Run(EMPTY_CHAIN, evs) == BOTH_ENDED
  {
    evs := SecondSent();
    evs := Then(EMPTY_CHAIN, evs, Exit(1));
    evs := Then(EMPTY_CHAIN, evs, Signal);
    evs := Then(EMPTY_CHAIN, evs, SeeShutdown(0));
    evs := Then(EMPTY_CHAIN, evs, Exit(0));
  }

  lemma LeftBehind() returns (evs: seq<Event>)
    ensures Run(EMPTY_CHAIN, evs) == BOTH_ENDED.(pc := Idle)
  {
    evs := BothEnded();
    evs := Then(EMPTY_CHAIN, evs, Poll);
    evs := Then(EMPTY_CHAIN, evs, EndLoop(false));
    evs := Then(EMPTY_CHAIN, evs, Join);
  }

  lemma SecondHeld()
    ensures Sum(MsgHolds(31), BOTH_ENDED.queue) == 1
  {
    assert Tally([Range(31, 60)], 31) == 1;
    assert Sum(MsgHolds(31), BOTH_ENDED.queue[1..]) == 0;
  }

  lemma PlannedTwice(ev: Event)
    requires ev == Begin(false, Some(60), TWO_BATCHES) && Control(BOTH_ENDED.(pc := Idle))
    ensures Held(Apply(EMPTY_CHAIN, BOTH_ENDED.(pc := Idle), ev), 31) == 2
  {
    hide Control, IsPlan, Held, Replans, HandleFetched, Sum;
    var s := BOTH_ENDED.(pc := Idle);
    TwoBatchesPlan();
    assert Plans(s, ev);
    BeginHeld(EMPTY_CHAIN, s, ev, 31);
    SecondHeld();
  }

  /** A height held twice: a task sees a shutdown that the fetcher does not, the queued answer
      stays behind in the channel, and the next sync plans its range again. */
  lemma HeldTwiceHappens() returns (evs: seq<Event>)
    ensures Held(Run(EMPTY_CHAIN, evs), 31) == 2
  {
    evs := LeftBehind();
    RunInv(EMPTY_CHAIN, evs);
    hide Run, Held, Apply, Control, CoreGood, InFlightGood, HeldOnce;
    var ev := Begin(false, Some(60), TWO_BATCHES);
    evs := Then(EMPTY_CHAIN, evs, ev);
    PlannedTwice(ev);
  }

  const THREE_BATCHES := [Range(1, 30), Range(31, 60), Range(61, 90)]

  lemma ThreeBatchesPlan()
    ensures IsPlan([], 90, THREE_BATCHES)
  {
    forall h: nat
      ensures Tally(THREE_BATCHES, h) == if 1 <= h <= 90 then 1 else 0
    {
      TallyAppend([Range(1, 30)], [Range(31, 60)], h);
      TallyAppend([Range(1, 30)] + [Range(31, 60)], [Range(61, 90)], h);
      assert THREE_BATCHES == [Range(1, 30)] + [Range(31, 60)] + [Range(61, 90)];
    }
    assert forall h: nat :: !Covers([], h);
  }

  /** All three batches are spawned; the last one is stored and published. */
  const LAST_STORED: State := INIT.(pc := AtFlag, active := 3, latest := 90,
    workers := [Fetching(Range(1, 30)), Fetching(Range(31, 60)), Leaving],
    core := Core([61, 90], map[], multiset{}, 90))

  lemma ThreeSpawned() returns (evs: seq<Event>)
    ensures Run(EMPTY_CHAIN, evs) == LAST_STORED.(core := INIT.core,
      workers := [Fetching(Range(1, 30)), Fetching(Range(31, 60)), Fetching(Range(61, 90))])
  {
    ThreeBatchesPlan();
    evs := Then(EMPTY_CHAIN, [], Begin(false, Some(90), THREE_BATCHES));
    evs := Then(EMPTY_CHAIN, evs, Spawn);
    evs := Then(EMPTY_CHAIN, evs, Spawn);
    evs := Then(EMPTY_CHAIN, evs, Spawn);
    evs := Then(EMPTY_CHAIN, evs, Spawn);
  }

  lemma LastReceived() returns (evs: seq<Event>)
    ensures Run(EMPTY_CHAIN, evs) == LAST_STORED.(core := INIT.core, pc := Handling(Fetched(Range(61, 90), [])))
  {
    evs := ThreeSpawned();
    assert ExactAnswer(EMPTY_CHAIN.chain, Range(61, 90), []);
    evs := Then(EMPTY_CHAIN, evs, FetchDone(2, []));
    evs := Then(EMPTY_CHAIN, evs, Send(2));
    evs := Then(EMPTY_CHAIN, evs, Poll);
    evs := Then(EMPTY_CHAIN, evs, Poll);
  }

  lemma LastStored() returns (evs: seq<Event>)
    ensures Run(EMPTY_CHAIN, evs) == LAST_STORED
  {
    evs := LastReceived();
    evs := Then(EMPTY_CHAIN, evs, Handle(false));
  }

  lemma FirstReceived() returns (evs: seq<Event>)
    ensures Run(EMPTY_CHAIN, evs) == LAST_STORED.(pc := Handling(Fetched(Range(1, 30), [])),
      workers := [Leaving, Fetching(Range(31, 60)), Leaving])
  {
    evs := LastStored();
    assert ExactAnswer(EMPTY_CHAIN.chain, Range(1, 30), []);
    evs := Then(EMPTY_CHAIN, evs, FetchDone(0, []));
    evs := Then(EMPTY_CHAIN, evs, Send(0));
    evs := Then(EMPTY_CHAIN, evs, Poll);
    evs := Then(EMPTY_CHAIN, evs, Poll);
  }

  /** The published height falls: the last of three batches arrives first, then the first. */
  lemma PublishedFallHappens() returns (evs: seq<Event>, ev: Event)
    ensures Run(EMPTY_CHAIN, evs).core.published == 90 && !ev.Restart?
    ensures Run(EMPTY_CHAIN, evs + [ev]).core.published == 30
  {
    evs := FirstReceived();
    ev := Handle(false);
    var evs' := Then(EMPTY_CHAIN, evs, ev);
    assert Inserted([61, 90], 1, 30) == [1, 30, 61, 90];
  }

  // ----- the drain loop can always finish

  /** A failed range costs a whole new fetch. */
  function MsgCost(m: Msg): nat { if m.Fetched? then 2 else 7 }

  function WorkerCost(w: Worker): nat {
    match w case Fetching(_) => 5 case Sending(m) => MsgCost(m) + 2 case Leaving => 1 case Exited => 0
  }

  /** What is left to do: for planned ranges, tasks, queued messages and the message in hand. */
  function Work(s: State): nat {
    6 * |s.todo| + Sum(WorkerCost, s.workers) + Sum(MsgCost, s.queue)
    + if s.pc.Handling? then MsgCost(s.pc.msg) - 1 else 0
  }

  predicate InLoop(pc: Pc) {
    pc.Spawning? || pc.AtFlag? || pc.AtRecv? || pc.AtCount? || pc.AtTry? || pc.Handling?
  }

  /** How far the fetcher is from the end of its loop, with the same work left. */
  function Place(s: State): nat
    requires InLoop(s.pc)
  {
    match s.pc
    case Spawning => 5
    case AtFlag => 4
    case AtRecv => 3
    case AtCount => if s.active == 0 then 2 else 4
    case AtTry => 1
    case _ => 0
  }

  function Rank(s: State): nat
    requires InLoop(s.pc)
  {
    5 * Work(s) + Place(s)
  }

  /** Progress proper: no failure, no shutdown. */
  predicate Calm(ev: Event) {
    ev.Spawn? || ev.FetchDone? || ev.Send? || ev.Exit? || ev.Poll? || ev == Handle(false)
  }

  ghost predicate Progress(c: Config, s: State, ev: Event)
    requires InLoop(s.pc)
  {
    var s1 := Apply(c, s, ev);
    && Calm(ev) && !s1.interrupt && s1.start == s.start && s1.latest == s.latest
    && (s1.pc.LoopEnded? || (InLoop(s1.pc) && Rank(s1) < Rank(s)))
  }

  /** Every finite map is what some list of entries extends the empty map to. */
  lemma {:induction false} AnswerExists(m: Log) returns (items: seq<Row>)
    ensures Extended(map[], items) == m
    decreases |m|
  {
    if m == map[] {
      items := [];
    } else {
      var k :| k in m;
      var rest := AnswerExists(m - {k});
      items := [(k, m[k])] + rest;
      assert items[1..] == rest;
      ExtendedSplit(map[k := m[k]], rest);
      assert map[k := m[k]] + (m - {k}) == m;
    }
  }

  lemma {:induction false} BusyWorker(ws: seq<Worker>) returns (i: nat)
    requires Sum(Live(), ws) > 0
    ensures i < |ws| && ws[i] != Exited
  {
    if ws[0] != Exited {
      i := 0;
    } else {
      i := BusyWorker(ws[1..]);
      i := i + 1;
    }
  }

  lemma FetchProgress(c: Config, s: State, i: nat) returns (ev: Event)
    requires s.pc.AtRecv? && !s.interrupt && i < |s.workers| && s.workers[i].Fetching?
    ensures Progress(c, s, ev)
  {
    var r := s.workers[i].r;
    var items := AnswerExists(map k | k in c.chain && r.lo <= k.height <= r.hi :: c.chain[k]);
    ev := FetchDone(i, items);
    SumUpdate(WorkerCost, s.workers, i, Sending(Fetched(r, items)));
  }

  lemma SendProgress(c: Config, s: State, i: nat)
    requires s.pc.AtRecv? && s.queue == [] && !s.interrupt && i < |s.workers| && s.workers[i].Sending?
    ensures Progress(c, s, Send(i))
  {
    SumUpdate(WorkerCost, s.workers, i, Leaving);
    SumAppend(MsgCost, s.queue, s.workers[i].msg);
  }

  lemma ExitProgress(c: Config, s: State, i: nat)
    requires s.pc.AtRecv? && !s.interrupt && i < |s.workers| && s.workers[i].Leaving?
    ensures Progress(c, s, Exit(i))
  {
    SumUpdate(WorkerCost, s.workers, i, Exited);
  }

  /** A task that has not exited can go on while the channel is empty. */
  lemma TaskProgress(c: Config, s: State, i: nat) returns (ev: Event)
    requires s.pc.AtRecv? && s.queue == [] && !s.interrupt && i < |s.workers| && s.workers[i] != Exited
    ensures Progress(c, s, ev)
  {
    hide Progress;
    match s.workers[i]
    case Fetching(_) => ev := FetchProgress(c, s, i);
    case Sending(_) =>
      ev := Send(i);
      SendProgress(c, s, i);
    case Leaving =>
      ev := Exit(i);
      ExitProgress(c, s, i);
  }

  lemma HandleProgress(c: Config, s: State)
    requires Control(s) && !s.interrupt && s.pc.Handling?
    ensures Progress(c, s, Handle(false))
  {
    hide Commit;
    if s.pc.msg.Failed? { SumAppend(WorkerCost, s.workers, Fetching(s.pc.msg.r)); }
  }

  lemma SpawnProgress(c: Config, s: State)
    requires !s.interrupt && s.pc.Spawning?
    ensures Progress(c, s, Spawn)
  {
    if s.todo != [] { SumAppend(WorkerCost, s.workers, Fetching(s.todo[0])); }
  }

  /** A poll receives, or moves towards the end when no task lives. */
  lemma PollProgress(c: Config, s: State)
    requires Control(s) && !s.interrupt && InLoop(s.pc) && !s.pc.Spawning? && !s.pc.Handling?
    requires s.pc.AtRecv? ==> s.queue != [] || s.active == 0
    ensures Progress(c, s, Poll)
  {
    if Receives(s) {
      assert Sum(MsgCost, s.queue) == MsgCost(s.queue[0]) + Sum(MsgCost, s.queue[1..]);
    }
  }

  /** In the loop and without a shutdown some step always brings the end closer. */
  lemma NeverStuck(c: Config, s: State) returns (ev: Event)
    requires Control(s) && InLoop(s.pc) && !s.interrupt
    ensures Progress(c, s, ev)
  {
    if s.pc.Spawning? {
      SpawnProgress(c, s);
      ev := Spawn;
    } else if s.pc.Handling? {
      HandleProgress(c, s);
      ev := Handle(false);
    } else if s.pc.AtRecv? && s.queue == [] && s.active != 0 {
      var i := BusyWorker(s.workers);
      ev := TaskProgress(c, s, i);
    } else {
      PollProgress(c, s);
      ev := Poll;
    }
  }

  lemma {:induction false} RunFromCons(c: Config, s: State, ev: Event, evs: seq<Event>)
    ensures RunFrom(c, s, [ev] + evs) == RunFrom(c, Apply(c, s, ev), evs)
  {
    var all := [ev] + evs;
    if evs == [] {
      assert all[..0] == [];
    } else {
      RunFromCons(c, s, ev, evs[..|evs| - 1]);
      assert all[..|all| - 1] == [ev] + evs[..|evs| - 1];
    }
  }

  /** From every point of a sync without a shutdown, answers of the indexer and steps of tasks
      and fetcher alone can bring the loop to its end, with everything planned inserted. */
  lemma {:induction false} CanDrain(c: Config, s: State) returns (evs: seq<Event>)
    requires Inv(c, s) && InLoop(s.pc) && !s.interrupt
    ensures forall ev | ev in evs :: Calm(ev)
    ensures var s1 := RunFrom(c, s, evs);
      Drained(s1) && s1.active == 0 && forall h: nat :: Covers(s1.core.ends, h) <==> Target(s, h)
    decreases Rank(s)
  {
    var ev := NeverStuck(c, s);
    StepKeepsInv(c, s, ev);
    var s1 := Apply(c, s, ev);
    var rest: seq<Event> := [];
    if s1.pc.LoopEnded? {
      DrainedCovers(c, s1);
    } else {
      rest := CanDrain(c, s1);
    }
    evs := [ev] + rest;
    RunFromCons(c, s, ev, rest);
  }
}
