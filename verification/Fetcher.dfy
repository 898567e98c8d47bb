/** The `Fetcher` object of host/src/db/fetch.rs: its methods do to the object's fields what
    the steps of Syncing.dfy do to the state. */
module Fetching {
  import opened Ranges
  import opened RangeStore
  import opened Storage
  import opened Syncing
  import opened Options

  lemma GapsTally(e: seq<nat>, from: nat, to: nat, gaps: seq<Range>)
    requires MaximalGaps(e, from, to, gaps)
    ensures forall h: nat :: Tally(gaps, h) == if from <= h <= to && !Covers(e, h) then 1 else 0
  {
    forall h: nat
      ensures Tally(gaps, h) == if from <= h <= to && !Covers(e, h) then 1 else 0
    {
      TallySeparated(gaps, h);
    }
  }

  lemma GapsInBatch(e: Endpoints, from: nat, to: nat, n: nat, gaps: seq<Range>)
    requires MaximalGaps(e, from, to, gaps)
    requires from == First(e) + n * BATCH_SIZE && to < from + BATCH_SIZE
    ensures forall i | 0 <= i < |gaps| :: InOneBatch(e, gaps[i])
  {
    forall i | 0 <= i < |gaps|
      ensures InOneBatch(e, gaps[i])
    {
      assert Holds(gaps, gaps[i].lo) && Holds(gaps, gaps[i].hi);
    }
  }

  datatype Start = Stop | Synced | Fetch(plan: seq<Range>)

  class Fetcher {
    const fetched: FetchedRanges
    const conn: DbConn
    var interruptFlag: bool
    var mode: Mode
    var syncedTo: nat

    ghost function View(): Core
      reads this, fetched, conn
      requires |fetched.ends| % 2 == 0
    {
      Core(fetched.ends, conn.wal, multiset(conn.table), syncedTo)
    }

    constructor (saved: Endpoints, table: seq<Row>, maxWalSize: nat)
      ensures fetched.ends == saved
      ensures View() == Fresh(saved, multiset(table)).core && mode == Normal && !interruptFlag
      ensures conn.maxWalSize == maxWalSize && fresh(fetched) && fresh(conn)
    {
      fetched := new FetchedRanges(saved);
      conn := new DbConn(table, maxWalSize);
      interruptFlag := false;
      mode := Normal;
      syncedTo := 1;
    }

    /** The spawn loop of `sync`: batches of 30 heights, each cut at what is stored. */
    method PlanBatches(latest: nat) returns (plan: seq<Range>)
      requires |fetched.ends| % 2 == 0
      ensures IsPlan(fetched.ends, latest, plan)
    {
      plan := [];
      ghost var e := fetched.ends;
      ghost var n := 0;
      var from := First(fetched.ends);
      while from <= latest
        invariant from == First(e) + n * BATCH_SIZE
        invariant e == fetched.ends
        invariant forall i | 0 <= i < |plan| :: InOneBatch(e, plan[i])
        invariant forall h: nat :: Tally(plan, h) == if First(e) <= h < from && h <= latest && !Covers(e, h) then 1 else 0
        decreases latest + BATCH_SIZE - from
      {
        var to := if from + BATCH_SIZE - 1 <= latest then from + BATCH_SIZE - 1 else latest;
        var gaps := fetched.BlocksLeftToFetch(from, to);
        GapsTally(e, from, to, gaps);
        GapsInBatch(e, from, to, n, gaps);
        forall h: nat { TallyAppend(plan, gaps, h); }
        plan := plan + gaps;
        from := from + BATCH_SIZE;
        n := n + 1;
      }
    }

    method CheckExitConditions(received: bool)
      modifies this
      ensures syncedTo == old(syncedTo)
      ensures mode == (if old(mode) == Normal && received then Interrupted else old(mode))
      ensures interruptFlag == (old(interruptFlag) || (old(mode) == Normal && received))
    {
      if mode == Interrupted {
        return;
      }
      if received {
        interruptFlag := true;
        mode := Interrupted;
      }
    }

    /** Returns the range to fetch again, if any. */
    method HandleFetched(msg: Msg) returns (retry: Option<Range>)
      requires |fetched.ends| % 2 == 0
      modifies this`syncedTo, fetched, conn
      ensures |fetched.ends| % 2 == 0
      ensures View() == if msg.Fetched? then Commit(old(View()), conn.maxWalSize, msg.r, msg.items) else old(View())
      ensures retry == if msg.Failed? && mode == Normal then Some(msg.r) else None
    {
      match msg
      case Fetched(r, items) =>
        fetched.Insert(r.lo, r.hi);
        syncedTo := First(fetched.ends) - 1;
        conn.Extend(items);
        retry := None;
      case Failed(r) =>
        retry := if mode == Interrupted then None else Some(r);
    }

    /** The object's fields are those of the machine's state. */
    ghost predicate Is(c: Config, s: State)
      reads this, fetched, conn
    {
      && |fetched.ends| % 2 == 0 && View() == s.core && conn.maxWalSize == c.maxWalSize
      && mode == s.mode && interruptFlag == s.interrupt
    }

    /** The start of `run`'s loop and of `sync`: does to the object what `Begin` does. */
    method StartSync(received: bool, tip: Option<nat>, ghost c: Config, ghost s: State) returns (start: Start)
      requires Is(c, s) && s.pc.Idle? && (received ==> s.signalled)
      modifies this
      ensures forall plan | start.Fetch? ==> plan == start.plan :: Is(c, Apply(c, s, Begin(received, tip, plan)))
      ensures match start
        case Stop => forall plan :: Apply(c, s, Begin(received, tip, plan)).pc.Stopped?
        case Synced => forall plan :: Apply(c, s, Begin(received, tip, plan)) == s
        case Fetch(plan) => tip.Some? && IsPlan(fetched.ends, tip.value, plan) && Apply(c, s, Begin(received, tip, plan)).pc.Spawning?
    {
      CheckExitConditions(received);
      if mode == Interrupted || tip.None? {
        return Stop;
      }
      if First(fetched.ends) > tip.value {
        return Synced;
      }
      var plan := PlanBatches(tip.value);
      return Fetch(plan);
    }

    /** The body of the drain loop: does to the object what `Handle` does. */
    method TakeMessage(msg: Msg, received: bool, ghost c: Config, ghost s: State) returns (retry: Option<Range>)
      requires Is(c, s) && s.pc == Handling(msg) && (received ==> s.signalled)
      modifies this, fetched, conn
      ensures var s1 := Apply(c, s, Handle(received));
        Is(c, s1) && s1.workers == s.workers + if retry.Some? then [Fetching(retry.value)] else []
    {
      hide Commit, IsPlan, Replans;
      CheckExitConditions(received);
      retry := HandleFetched(msg);
    }

    /** Save the vector, then drop the connection: the log goes to the table. */
    method SaveAndDrop() returns (file: Endpoints)
      requires |fetched.ends| % 2 == 0
      modifies conn
      ensures file == fetched.ends
      ensures View() == old(View()).(wal := map[], table := old(View()).table + multiset(old(View()).wal.Items))
    {
      file := fetched.ends;
      conn.Drain();
    }
  }
}
