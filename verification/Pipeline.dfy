/** Fetcher and detection together: the host reads its rows off the table of the fetch engine,
    while the height it takes for complete runs ahead of that table.

    The fetcher publishes a height before the rows reach the log, and the log before they reach
    the table; `get_height` reads the table only.  So a round can pass a block whose rows are
    still in the log. */
module Pipeline {
  import opened Options
  import opened Ranges
  import opened Sorting
  import opened IndexLists
  import opened Fmd
  import opened Storage
  import Syncing
  import SyncRuns
  import Relay

  /** A table row as `get_height` decodes it. */
  predicate Decodes(flagOf: nat -> Option<nat>, row: Row, read: FlagRow) {
    read.ix.height == row.0.height && read.ix.tx == row.0.place && read.flag == flagOf(row.1)
  }

  /** What the host reads off a table, in whatever order the table has. */
  ghost predicate ReadOff(flagOf: nat -> Option<nat>, table: multiset<Row>, rows: seq<FlagRow>) {
    exists order: seq<Row> ::
      && multiset(order) == table && |order| == |rows|
      && forall i | 0 <= i < |rows| :: Decodes(flagOf, order[i], rows[i])
  }

  lemma ReadOffMembers(flagOf: nat -> Option<nat>, table: multiset<Row>, rows: seq<FlagRow>, read: FlagRow)
    requires ReadOff(flagOf, table, rows)
    ensures read in rows <==> exists row :: row in table && Decodes(flagOf, row, read)
  {
    var order: seq<Row> :| multiset(order) == table && |order| == |rows|
      && forall i | 0 <= i < |rows| :: Decodes(flagOf, order[i], rows[i]);
    if read in rows {
      var i :| 0 <= i < |rows| && rows[i] == read;
      assert order[i] in table;
    }
    if row :| row in table && Decodes(flagOf, row, read) {
      assert row in order;
      var i :| 0 <= i < |order| && order[i] == row;
      assert rows[i] == read;
    }
  }

  /** The flag row of a transaction on chain. */
  function OnChain(flagOf: nat -> Option<nat>, chain: Storage.Chain, x: Index): FlagRow
    requires TxKey(x.height, x.tx) in chain
  {
    FlagRow(x, flagOf(chain[TxKey(x.height, x.tx)]))
  }

  lemma TableRow(c: Syncing.Config, evs: seq<Syncing.Event>, row: Row)
    ensures var core := Syncing.Run(c, evs).core;
      row in core.table <==>
        row.0 in c.chain && c.chain[row.0] == row.1 && Covers(core.ends, row.0.height) && row.0 !in core.wal
  {
    SyncRuns.TableHoldsRow(c, evs, row);
    assert row in c.chain.Items <==> row.0 in c.chain && c.chain[row.0] == row.1;
  }

  /** A read row occurs as often as the one table row with its index. */
  lemma {:induction false} DecodesCount(flagOf: nat -> Option<nat>, order: seq<Row>, rows: seq<FlagRow>, row: Row, read: FlagRow)
    requires |order| == |rows| && forall i | 0 <= i < |rows| :: Decodes(flagOf, order[i], rows[i])
    requires Decodes(flagOf, row, read) && forall other | other in order && other.0 == row.0 :: other == row
    ensures multiset(rows)[read] == multiset(order)[row]
  {
    if rows != [] {
      assert rows == [rows[0]] + rows[1..] && order == [order[0]] + order[1..];
      assert rows[0] == read <==> order[0] == row;
      DecodesCount(flagOf, order[1..], rows[1..], row, read);
    }
  }

  /** The row is that of a transaction on chain. */
  predicate Listed(flagOf: nat -> Option<nat>, chain: Storage.Chain, read: FlagRow) {
    TxKey(read.ix.height, read.ix.tx) in chain && read == OnChain(flagOf, chain, read.ix)
  }

  lemma ListedIsRead(c: Syncing.Config, evs: seq<Syncing.Event>, flagOf: nat -> Option<nat>, rows: seq<FlagRow>, read: FlagRow)
    requires ReadOff(flagOf, Syncing.Run(c, evs).core.table, rows) && Listed(flagOf, c.chain, read)
    ensures multiset(rows)[read] ==
      Syncing.Run(c, evs).core.table[(TxKey(read.ix.height, read.ix.tx), c.chain[TxKey(read.ix.height, read.ix.tx)])]
  {
    var table := Syncing.Run(c, evs).core.table;
    forall row: Row { TableRow(c, evs, row); }
    hide Syncing.Run;
    var order: seq<Row> :| multiset(order) == table && |order| == |rows|
      && forall i | 0 <= i < |rows| :: Decodes(flagOf, order[i], rows[i]);
    var k := TxKey(read.ix.height, read.ix.tx);
    forall other | other in order && other.0 == k
      ensures other == (k, c.chain[k])
    {
      assert other in table;
    }
    DecodesCount(flagOf, order, rows, (k, c.chain[k]), read);
  }

  /** How often the host reads a row: once if it is on chain, covered and no longer in the log,
      and else not. */
  lemma ReadOnce(c: Syncing.Config, evs: seq<Syncing.Event>, flagOf: nat -> Option<nat>, rows: seq<FlagRow>, read: FlagRow)
    requires ReadOff(flagOf, Syncing.Run(c, evs).core.table, rows)
    ensures var core := Syncing.Run(c, evs).core;
      multiset(rows)[read] ==
        if Listed(flagOf, c.chain, read) && Covers(core.ends, read.ix.height) && TxKey(read.ix.height, read.ix.tx) !in core.wal
        then 1 else 0
  {
    var core, k := Syncing.Run(c, evs).core, TxKey(read.ix.height, read.ix.tx);
    hide Syncing.Run;
    if Listed(flagOf, c.chain, read) {
      ListedIsRead(c, evs, flagOf, rows, read);
      SyncRuns.TableHoldsRow(c, evs, (k, c.chain[k]));
    } else {
      ReadOffMembers(flagOf, core.table, rows, read);
      forall row: Row { TableRow(c, evs, row); }
    }
  }

  /** When the host reads off the fetcher's table, a key takes in a transaction of its next block
      exactly once if it is on chain, detected, covered and no longer in the log, and else not. */
  lemma TakenInIff(c: Syncing.Config, evs: seq<Syncing.Event>, flagOf: nat -> Option<nat>, rows: seq<FlagRow>,
                   d: Detector, fmd: nat, heights: seq<nat>, x: Index)
    requires ReadOff(flagOf, Syncing.Run(c, evs).core.table, rows) && NoDup(heights) && x.height in heights
    ensures var core, k := Syncing.Run(c, evs).core, TxKey(x.height, x.tx);
      multiset(Hits(d, fmd, Flags(rows, heights), x.height))[x] ==
        if k in c.chain && Detected(d, fmd, OnChain(flagOf, c.chain, x)) && Covers(core.ends, x.height) && k !in core.wal
        then 1 else 0
  {
    var found := RowsAt(rows, x.height);
    HitsFlags(d, fmd, rows, heights, x.height);
    hide Syncing.Run, Hits, Flags, RowsAt, Detected, ReadOff;
    forall read: FlagRow | read.ix == x
      ensures read in found ==> Listed(flagOf, c.chain, read)
    {
      RowsAtMembers(rows, x.height, read);
      ReadOnce(c, evs, flagOf, rows, read);
    }
    if TxKey(x.height, x.tx) in c.chain {
      var read := OnChain(flagOf, c.chain, x);
      FilterCounts(d, fmd, found, read);
      RowsAtCounts(rows, x.height, read);
      ReadOnce(c, evs, flagOf, rows, read);
    } else {
      FilterMembers(d, fmd, found, x);
    }
  }

  /** The block as the chain of detection gives it: the transactions of the height, each once. */
  ghost predicate ListsBlock(flagOf: nat -> Option<nat>, chain: Storage.Chain, h: nat, block: seq<FlagRow>) {
    forall read: FlagRow :: multiset(block)[read] == if read.ix.height == h && Listed(flagOf, chain, read) then 1 else 0
  }

  ghost predicate InTxOrder(rows: seq<FlagRow>) {
    forall i, j | 0 <= i < j < |rows| :: rows[i].ix.tx < rows[j].ix.tx
  }

  lemma FirstByTx(rows: seq<FlagRow>, row: FlagRow)
    requires InTxOrder(rows) && row in multiset(rows)
    ensures rows != [] && rows[0].ix.tx <= row.ix.tx && (rows[0].ix.tx == row.ix.tx ==> rows[0] == row)
  {
    var i :| 0 <= i < |rows| && rows[i] == row;
  }

  lemma TxTail(rows: seq<FlagRow>)
    requires InTxOrder(rows) && rows != []
    ensures InTxOrder(rows[1..]) && rows[0] in multiset(rows)
    ensures multiset(rows[1..]) == multiset(rows) - multiset{rows[0]}
  {
    assert rows == [rows[0]] + rows[1..];
  }

  lemma SameFirst(a: seq<FlagRow>, b: seq<FlagRow>)
    requires InTxOrder(a) && InTxOrder(b) && multiset(a) == multiset(b) && a != []
    ensures b != [] && a[0] == b[0]
  {
    assert a[0] in multiset(b);
    FirstByTx(b, a[0]);
    assert b[0] in multiset(a);
    FirstByTx(a, b[0]);
  }

  lemma {:induction false} TxOrderUnique(a: seq<FlagRow>, b: seq<FlagRow>)
    requires InTxOrder(a) && InTxOrder(b) && multiset(a) == multiset(b)
    ensures a == b
  {
    hide InTxOrder;
    if a == [] {
      assert |multiset(b)| == 0;
    } else {
      SameFirst(a, b);
      TxTail(a);
      TxTail(b);
      TxOrderUnique(a[1..], b[1..]);
      assert a == [a[0]] + a[1..] && b == [b[0]] + b[1..];
    }
  }

  /** The rows of a covered block of which nothing is in the log are read whole: each row of the
      block once and no other.  If the table keeps them in the order of the block, the read is
      right for every key whose next block it is. */
  lemma WrittenBlockIsRead(c: Syncing.Config, evs: seq<Syncing.Event>, flagOf: nat -> Option<nat>, rows: seq<FlagRow>,
                           chain: Fmd.Chain, h: nat)
    requires ReadOff(flagOf, Syncing.Run(c, evs).core.table, rows) && ListsBlock(flagOf, c.chain, h, chain(h))
    requires Covers(Syncing.Run(c, evs).core.ends, h) && forall k | k in Syncing.Run(c, evs).core.wal :: k.height != h
    ensures multiset(RowsAt(rows, h)) == multiset(chain(h))
    ensures InTxOrder(RowsAt(rows, h)) && InTxOrder(chain(h)) ==>
      forall d: Detector, bound: nat, k: Key | k.syncedTo + 1 == h :: RightRead(d, chain, rows, bound, k)
  {
    hide Syncing.Run, ReadOff;
    forall read: FlagRow
      ensures multiset(RowsAt(rows, h))[read] == multiset(chain(h))[read]
    {
      RowsAtCounts(rows, h, read);
      ReadOnce(c, evs, flagOf, rows, read);
    }
    assert multiset(RowsAt(rows, h)) == multiset(chain(h));
    if InTxOrder(RowsAt(rows, h)) && InTxOrder(chain(h)) {
      TxOrderUnique(RowsAt(rows, h), chain(h));
    }
  }

  /** A round's reads off the fetcher's table leave out what is still in the log. */
  lemma LoggedIsPassed(c: Syncing.Config, evs: seq<Syncing.Event>, flagOf: nat -> Option<nat>, d: Detector,
                       table: seq<FlagRow>, bound: nat, keys: seq<Key>, i: nat, x: Index)
    requires ReadOff(flagOf, Syncing.Run(c, evs).core.table, table) && TxKey(x.height, x.tx) in Syncing.Run(c, evs).core.wal
    requires i < |keys| && InReach(keys[i]) && keys[i].syncedTo + 1 == x.height <= bound
    ensures var k := Round(d, table, bound, keys)[i];
      x !in k.indices && k.syncedTo == x.height && k.fmd == keys[i].fmd && k.birthday == keys[i].birthday
  {
    hide Syncing.Run, Syncing.RunFrom, ReadOff, Heights, Flags, Hits, Detected;
    var heights := Heights(Nexts(keys));
    HeightsFacts(Nexts(keys));
    assert Nexts(keys)[i] in Nexts(keys);
    TakenInIff(c, evs, flagOf, table, d, keys[i].fmd, heights, x);
    assert x !in keys[i].indices;
  }

  /** A round that passes a block while one of its detected transactions is still in the log
      loses the transaction for the key: in no continuation is its list the one-shot list. */
  lemma LoggedIsLost(c: Syncing.Config, evs: seq<Syncing.Event>, flagOf: nat -> Option<nat>,
                     rc: Relay.Config, s: Relay.State, ev: Relay.Event, nonces: nat -> nat, i: nat, x: Index, more: seq<Relay.Event>)
    requires Relay.Turn(s) && Relay.Asked(s, ev) && ReadOff(flagOf, Syncing.Run(c, evs).core.table, ev.table)
    requires i < |s.enclave.keys| && InReach(s.enclave.keys[i]) && s.enclave.keys[i].syncedTo + 1 == x.height <= ev.bound
    requires TxKey(x.height, x.tx) in c.chain && TxKey(x.height, x.tx) in Syncing.Run(c, evs).core.wal
    requires var read := OnChain(flagOf, c.chain, x);
      read in rc.chain(x.height) && Detected(rc.d, s.enclave.keys[i].fmd, read)
    ensures var after := Relay.Apply(rc, Relay.Apply(rc, s, ev), Relay.EnclaveReads(nonces));
      var keys := Relay.RunFrom(rc, after, more).enclave.keys;
      i < |keys| && !Exact(rc.d, rc.chain, keys[i])
  {
    LoggedIsPassed(c, evs, flagOf, rc.d, ev.table, ev.bound, s.enclave.keys, i, x);
    Relay.ExchangeAdvances(rc, s, ev, nonces);
    hide Relay.Apply, Relay.RunFrom, Relay.Turn, Syncing.Run, Round, ReadOff, Detected, Exact;
    var after := Relay.Apply(rc, Relay.Apply(rc, s, ev), Relay.EnclaveReads(nonces));
    Relay.NeverExactAgain(rc, after, more, i, OnChain(flagOf, c.chain, x));
  }

  // ----- it happens with the log limit the program comes with

  const KEY: TxKey := TxKey(2, 0)
  const FETCHING: Syncing.Config := Syncing.Config(map[KEY := 7], 1000)

  lemma OneBatchPlan()
    ensures Syncing.IsPlan([], 2, [Range(1, 2)])
  {
    assert forall h: nat :: Tally([Range(1, 2)], h) == if 1 <= h <= 2 then 1 else 0;
    assert forall h: nat :: !Covers([], h);
  }

  lemma Received(before: seq<Syncing.Event>) returns (evs: seq<Syncing.Event>)
    requires Syncing.Run(FETCHING, before) == Syncing.INIT.(pc := Syncing.AtFlag,
      workers := [Syncing.Fetching(Range(1, 2))], active := 1, latest := 2)
    ensures Syncing.Run(FETCHING, evs) == Syncing.Run(FETCHING, before).(workers := [Syncing.Leaving],
      pc := Syncing.Handling(Syncing.Fetched(Range(1, 2), [(KEY, 7)])))
  {
    assert Extended(map[], [(KEY, 7)]) == map[KEY := 7];
    assert ExactAnswer(FETCHING.chain, Range(1, 2), [(KEY, 7)]);
    evs := SyncRuns.Then(FETCHING, before, Syncing.FetchDone(0, [(KEY, 7)]));
    evs := SyncRuns.Then(FETCHING, evs, Syncing.Send(0));
    evs := SyncRuns.Then(FETCHING, evs, Syncing.Poll);
    evs := SyncRuns.Then(FETCHING, evs, Syncing.Poll);
  }

  /** Height 2 is published while its one row is in the log and the table is empty. */
  lemma PublishedUnwritten() returns (evs: seq<Syncing.Event>)
    ensures Syncing.Run(FETCHING, evs).core == Core([1, 2], map[KEY := 7], multiset{}, 2)
  {
    OneBatchPlan();
    evs := SyncRuns.Then(FETCHING, [], Syncing.Begin(false, Some(2), [Range(1, 2)]));
    evs := SyncRuns.Then(FETCHING, evs, Syncing.Spawn);
    evs := SyncRuns.Then(FETCHING, evs, Syncing.Spawn);
    evs := Received(evs);
    evs := SyncRuns.Then(FETCHING, evs, Syncing.Handle(false));
    assert Extended(map[], [(KEY, 7)]) == map[KEY := 7];
  }

  function NoFlag(): nat -> Option<nat> { (_: nat) => None }

  /** The same chain for detection: one row without a flag at height 2. */
  function OneRow(): Fmd.Chain { (h: nat) => if h == 2 then [FlagRow(Index(2, 0), None)] else [] }

  function Serving(): Relay.Config { Relay.Config((_: nat, _: nat) => false, OneRow(), 1000) }

  /** A client has been sent the enclave's report. */
  lemma Connected() returns (evs: seq<Relay.Event>)
    ensures Relay.Run(Serving(), evs) == Relay.INIT.(host := Relay.RegClient, enclave := Relay.EnclaveState(true, []))
  {
    evs := Relay.Then(Serving(), [], Relay.ClientConnects(true, true));
    evs := Relay.Then(Serving(), evs, Relay.EnclaveReads((_: nat) => 0));
    evs := Relay.Then(Serving(), evs, Relay.HostReads([], 0));
  }

  /** It registers a key without a birthday. */
  lemma Registered() returns (evs: seq<Relay.Event>)
    ensures Relay.Run(Serving(), evs) == Relay.INIT.(enclave := Relay.EnclaveState(false, [NewKey(0, 0, None)]), told := 1)
  {
    evs := Connected();
    evs := Relay.Then(Serving(), evs, Relay.ClientAnswers(Some(Relay.Success(Some(Relay.Registration(0, 0, None))))));
    evs := Relay.Then(Serving(), evs, Relay.EnclaveReads((_: nat) => 0));
    evs := Relay.Then(Serving(), evs, Relay.HostReads([], 0));
  }

  /** A round has asked which blocks the key needs. */
  lemma RoundBegun() returns (evs: seq<Relay.Event>)
    ensures Relay.Run(Serving(), evs) == Relay.State(Relay.FmdBlocks,
      Relay.EnclaveState(false, [NewKey(0, 0, None)]), [], [Relay.BlockRequests(Nexts([NewKey(0, 0, None)]))], map[], 1)
  {
    evs := Registered();
    evs := Relay.Then(Serving(), evs, Relay.StartFmd);
    evs := Relay.Then(Serving(), evs, Relay.EnclaveReads((_: nat) => 0));
  }

  /** With one row on chain, height 2 published and the round reading what the fetcher's table
      holds at that moment, the only key passes block 2 with an empty list, for good. */
  lemma RowLost(more: seq<Relay.Event>) returns (evs: seq<Syncing.Event>, revs: seq<Relay.Event>)
    ensures var core := Syncing.Run(FETCHING, evs).core;
      var s := Relay.Run(Serving(), revs);
      var after := Relay.Apply(Serving(), Relay.Apply(Serving(), s, Relay.HostReads([], core.published)), Relay.EnclaveReads((_: nat) => 0));
      var keys := Relay.RunFrom(Serving(), after, more).enclave.keys;
      && core.published == 2 && core.wal == map[KEY := 7] && ReadOff(NoFlag(), core.table, [])
      && |keys| >= 1 && !Exact(Serving().d, Serving().chain, keys[0])
  {
    evs := PublishedUnwritten();
    revs := RoundBegun();
    Relay.RunInv(Serving(), revs);
    var s := Relay.Run(Serving(), revs);
    var order: seq<Row> := [];
    assert multiset(order) == Syncing.Run(FETCHING, evs).core.table;
    assert ReadOff(NoFlag(), Syncing.Run(FETCHING, evs).core.table, []);
    assert s.enclave.keys[0] == NewKey(0, 0, None);
    LoggedIsLost(FETCHING, evs, NoFlag(), Serving(), s, Relay.HostReads([], 2), (_: nat) => 0, 0, Index(2, 0), more);
  }
}
