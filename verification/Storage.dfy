/** Rows, the write-ahead log and the table behind `DbConn` (host/src/db/fetch.rs). */
module Storage {
  import opened Ranges

  /** Where a transaction sits on chain: its block, and its place in the block. */
  datatype TxKey = TxKey(height: nat, place: nat)

  type Row = (TxKey, nat)
  type Chain = map<TxKey, nat>
  type Log = map<TxKey, nat>

  /** The log after `extend`: later entries for a key replace earlier ones. */
  function Extended(wal: Log, items: seq<Row>): Log
    decreases items
  {
    if items == [] then wal else Extended(wal[items[0].0 := items[0].1], items[1..])
  }

  /** The indexer's answer, read as a map, is exactly the chain's rows of the range. */
  ghost predicate ExactAnswer(chain: Chain, r: Range, items: seq<Row>) {
    Extended(map[], items) == map k | k in chain && r.lo <= k.height <= r.hi :: chain[k]
  }

  lemma {:induction false} ExtendedSplit(wal: Log, items: seq<Row>)
    ensures Extended(wal, items) == wal + Extended(map[], items)
    decreases items
  {
    if items != [] {
      var k, d := items[0].0, items[0].1;
      ExtendedSplit(wal[k := d], items[1..]);
      ExtendedSplit(map[k := d], items[1..]);
      assert wal[k := d] + Extended(map[], items[1..]) == wal + (map[k := d] + Extended(map[], items[1..]));
    }
  }

  /** Everything a commit of fetched rows touches. */
  datatype Core = Core(ends: Endpoints, wal: Log, table: multiset<Row>, published: nat)

  /** Log and table after `extend`: the log is flushed once it reaches its limit. */
  function Logged(core: Core, limit: nat, items: seq<Row>): Core {
    var wal := Extended(core.wal, items);
    if |wal| >= limit then core.(wal := map[], table := core.table + multiset(wal.Items))
    else core.(wal := wal)
  }

  /** A successful fetch: the range is inserted, the height published, the rows logged. */
  function Commit(core: Core, limit: nat, r: Range, items: seq<Row>): Core {
    var ends := Inserted(core.ends, r.lo, r.hi);
    Logged(core.(ends := ends, published := First(ends) - 1), limit, items)
  }

  /** How often a row is held by table and log together. */
  ghost function Stored(core: Core, row: Row): nat {
    core.table[row] + if row in core.wal.Items then 1 else 0
  }

  /** How often it should be: once if it is on chain at a covered height. */
  ghost function Due(chain: Chain, ends: seq<nat>, row: Row): nat {
    if row in chain.Items && Covers(ends, row.0.height) then 1 else 0
  }

  ghost predicate ExactlyOnce(chain: Chain, core: Core) {
    forall row: Row :: Stored(core, row) == Due(chain, core.ends, row)
  }

  lemma {:induction false} LoggedStored(core: Core, limit: nat, items: seq<Row>, row: Row)
    requires row.0 in core.wal ==> row.0 !in Extended(map[], items)
    ensures Stored(Logged(core, limit, items), row)
         == Stored(core, row) + (if row in Extended(map[], items).Items then 1 else 0)
  {
    ExtendedSplit(core.wal, items);
    var fetched := Extended(map[], items);
    var wal := Extended(core.wal, items);
    assert row in wal.Items <==> row.0 in wal && wal[row.0] == row.1;
    assert row in fetched.Items <==> row.0 in fetched && fetched[row.0] == row.1;
    assert row in core.wal.Items <==> row.0 in core.wal && core.wal[row.0] == row.1;
  }

  /** A range outside the set never ends where a stored range ends. */
  lemma UpperEndFree(e: seq<nat>, r: Range)
    requires Canonical(e) && r.lo <= r.hi && forall h | r.lo <= h <= r.hi :: !Covers(e, h)
    ensures !UpperEnd(e, r.hi)
  {
    if UpperEnd(e, r.hi) { UpperEndCovers(e, r.hi); }
  }

  /** The log is written out exactly when it would hold `limit` rows or more. */
  lemma FlushIff(core: Core, limit: nat, items: seq<Row>)
    ensures var after, wal := Logged(core, limit, items), core.wal + Extended(map[], items);
      && (|wal| < limit ==> after.wal == wal && after.table == core.table)
      && (|wal| >= limit ==> after.wal == map[] && after.table == core.table + multiset(wal.Items))
      && after.ends == core.ends && after.published == core.published
  {
    ExtendedSplit(core.wal, items);
  }

  lemma {:induction false} CommitKeepsExactlyOnce(chain: Chain, core: Core, limit: nat, r: Range, items: seq<Row>)
    requires Canonical(core.ends) && ExactlyOnce(chain, core) && ExactAnswer(chain, r, items)
    requires r.lo <= r.hi && forall h | r.lo <= h <= r.hi :: !Covers(core.ends, h)
    ensures ExactlyOnce(chain, Commit(core, limit, r, items))
  {
    UpperEndFree(core.ends, r);
    InsertIsUnion(core.ends, r.lo, r.hi);
    var ends := Inserted(core.ends, r.lo, r.hi);
    var core1 := core.(ends := ends, published := First(ends) - 1);
    var fetched := Extended(map[], items);
    forall row: Row
      ensures Stored(Commit(core, limit, r, items), row) == Due(chain, ends, row)
    {
      if row.0 in core.wal {
        var held := (row.0, core.wal[row.0]);
        assert held in core.wal.Items;
        assert Stored(core, held) == Due(chain, core.ends, held);
      }
      assert row in fetched.Items <==> row.0 in fetched && fetched[row.0] == row.1;
      LoggedStored(core1, limit, items, row);
      assert Stored(core1, row) == Stored(core, row) == Due(chain, core.ends, row);
    }
  }

  /** The published height after a commit is the end of the complete prefix 1..n exactly
      when height 1 is covered; the initial out-of-order batches are the exception. */
  lemma PublishedExactIff(core: Core, limit: nat, r: Range, items: seq<Row>)
    requires Canonical(core.ends) && !Covers(core.ends, 0) && 1 <= r.lo <= r.hi && !UpperEnd(core.ends, r.hi)
    ensures var after := Commit(core, limit, r, items);
      LeastMissing(after.ends, after.published + 1) <==> Covers(after.ends, 1)
  {
    InsertIsUnion(core.ends, r.lo, r.hi);
    var ends := Inserted(core.ends, r.lo, r.hi);
    assert Covers(ends, r.lo);
    FirstIsLeastMissingIff(ends);
    CoversFromFirst(ends, 1);
    if ends[0] <= 1 {
      assert Covers(ends, ends[0]);
    }
  }

  /** A commit publishes a lower height than before exactly when its range lies below the first
      stored range and does not touch it. */
  lemma CommitLowersIff(core: Core, limit: nat, r: Range, items: seq<Row>)
    requires Canonical(core.ends) && !Covers(core.ends, 0) && 1 <= r.lo <= r.hi
    requires forall h | r.lo <= h <= r.hi :: !Covers(core.ends, h)
    requires core.published == 1 || core.published == First(core.ends) - 1
    ensures Commit(core, limit, r, items).published < core.published
       <==> core.published > 1 && core.ends != [] && r.hi + 1 < core.ends[0]
  {
    UpperEndFree(core.ends, r);
    InsertIsUnion(core.ends, r.lo, r.hi);
    var ends := Inserted(core.ends, r.lo, r.hi);
    assert Commit(core, limit, r, items).published == First(ends) - 1;
    if core.ends == [] {
      assert ends == [r.lo, r.hi];
    } else {
      FirstUpperEnd(core.ends, ends, r.lo, r.hi);
    }
  }

  lemma TakeOne(m: Log, k: TxKey)
    requires k in m
    ensures multiset(m.Items) == multiset((m - {k}).Items) + multiset{(k, m[k])}
  {
    var less := m - {k};
    forall row: Row
      ensures row in m.Items <==> row in less.Items || row == (k, m[k])
    {
      assert row in m.Items <==> row.0 in m && m[row.0] == row.1;
      assert row in less.Items <==> row.0 in less && less[row.0] == row.1;
    }
    assert m.Items == less.Items + {(k, m[k])};
    assert (k, m[k]) !in less.Items;
  }

  class DbConn {
    var table: seq<Row>
    var wal: Log
    const maxWalSize: nat

    constructor (saved: seq<Row>, maxWalSize: nat)
      ensures table == saved && wal == map[] && this.maxWalSize == maxWalSize
    {
      table := saved;
      wal := map[];
      this.maxWalSize := maxWalSize;
    }

    /** The log is written to the table and left empty: the flush, and the final drop. */
    method Drain()
      modifies this
      ensures wal == map[]
      ensures multiset(table) == old(multiset(table)) + multiset(old(wal).Items)
      ensures old(table) <= table
    {
      var rest := wal;
      wal := map[];
      while rest != map[]
        invariant wal == map[]
        invariant multiset(table) + multiset(rest.Items) == old(multiset(table)) + multiset(old(wal).Items)
        invariant old(table) <= table
        decreases |rest|
      {
        var k :| k in rest;
        TakeOne(rest, k);
        table := table + [(k, rest[k])];
        rest := rest - {k};
      }
      assert rest.Items == {};
    }

    /** Add rows to the log; write the log out when it has reached its limit. */
    method Extend(items: seq<Row>)
      modifies this
      ensures wal == (if |Extended(old(wal), items)| >= maxWalSize then map[] else Extended(old(wal), items))
      ensures multiset(table) == (if |Extended(old(wal), items)| >= maxWalSize
                                  then old(multiset(table)) + multiset(Extended(old(wal), items).Items)
                                  else old(multiset(table)))
      ensures maxWalSize >= 1 ==> |wal| < maxWalSize
    {
      var i := 0;
      while i < |items|
        invariant 0 <= i <= |items|
        invariant Extended(wal, items[i..]) == Extended(old(wal), items)
        invariant table == old(table)
      {
        assert items[i..][1..] == items[i + 1..];
        wal := wal[items[i].0 := items[i].1];
        i := i + 1;
      }
      assert items[i..] == [];
      if |wal| >= maxWalSize {
        Drain();
      }
    }
  }
}
