/** Rounds of fuzzy message detection: what the host asks and reads (host/src/main.rs), and
    what the enclave does with it for every registered key (enclave/src/fmd.rs).

    Detection is any fixed predicate, encryption is ideal, and an owner name stands for the
    hash of an encryption key. */
module Fmd {
  import opened Options
  import opened Bytes
  import opened Sorting
  import opened Counting
  import opened IndexLists
  import opened IndexCodec

  /** Does the detection key match the flag? */
  type Detector = (nat, nat) -> bool

  /** A transaction as read from the table: its index and its flag, if that parses. */
  datatype FlagRow = FlagRow(ix: Index, flag: Option<nat>)

  /** The rows of each block, in row order. */
  type Chain = nat -> seq<FlagRow>

  datatype Key = Key(fmd: nat, enc: nat, birthday: Option<nat>, syncedTo: nat, indices: seq<Index>)

  function Start(birthday: Option<nat>): nat {
    if birthday.Some? then birthday.value else 1
  }

  /** A registered key before its first round. */
  function NewKey(fmd: nat, enc: nat, birthday: Option<nat>): Key {
    Key(fmd, enc, birthday, Start(birthday), [])
  }

  // ----- the reference: filter the chain once

  predicate Detected(d: Detector, fmd: nat, row: FlagRow) {
    row.flag.None? || d(fmd, row.flag.value)
  }

  function IfDetected(d: Detector, fmd: nat, row: FlagRow): seq<Index> {
    if Detected(d, fmd, row) then [row.ix] else []
  }

  function Filter(d: Detector, fmd: nat, rows: seq<FlagRow>): seq<Index> {
    if rows == [] then [] else IfDetected(d, fmd, rows[0]) + Filter(d, fmd, rows[1..])
  }

  /** The rows of blocks lo..hi, one after another. */
  function Blocks(chain: Chain, lo: nat, hi: nat): seq<FlagRow>
    decreases hi + 1 - lo
  {
    if lo > hi then [] else chain(lo) + Blocks(chain, lo + 1, hi)
  }

  /** The detected transactions after block `from`, up to block `to`. */
  function OneShot(d: Detector, fmd: nat, chain: Chain, from: nat, to: nat): seq<Index> {
    Filter(d, fmd, Blocks(chain, from + 1, to))
  }

  lemma {:induction false} FilterAppend(d: Detector, fmd: nat, a: seq<FlagRow>, b: seq<FlagRow>)
    ensures Filter(d, fmd, a + b) == Filter(d, fmd, a) + Filter(d, fmd, b)
  {
    if a == [] {
      assert a + b == b;
    } else {
      hide IfDetected;
      assert (a + b)[1..] == a[1..] + b;
      FilterAppend(d, fmd, a[1..], b);
      assert Filter(d, fmd, a + b) == IfDetected(d, fmd, a[0]) + (Filter(d, fmd, a[1..]) + Filter(d, fmd, b));
    }
  }

  lemma {:induction false} BlocksExtend(chain: Chain, lo: nat, hi: nat)
    requires lo <= hi + 1
    ensures Blocks(chain, lo, hi + 1) == Blocks(chain, lo, hi) + chain(hi + 1)
    decreases hi + 1 - lo
  {
    if lo <= hi {
      BlocksExtend(chain, lo + 1, hi);
    } else {
      assert Blocks(chain, lo + 1, hi + 1) == [];
    }
  }

  lemma OneShotEmpty(d: Detector, fmd: nat, chain: Chain, from: nat)
    ensures OneShot(d, fmd, chain, from, from) == []
  {}

  lemma OneShotExtend(d: Detector, fmd: nat, chain: Chain, from: nat, to: nat)
    requires from <= to
    ensures OneShot(d, fmd, chain, from, to + 1)
         == OneShot(d, fmd, chain, from, to) + Filter(d, fmd, chain(to + 1))
  {
    BlocksExtend(chain, from + 1, to);
    FilterAppend(d, fmd, Blocks(chain, from + 1, to), chain(to + 1));
  }

  /** Only rows of height `h`, each once. */
  ghost predicate ProperBlock(rows: seq<FlagRow>, h: nat) {
    && (forall row | row in rows :: row.ix.height == h)
    && (forall i, j | 0 <= i < j < |rows| :: rows[i].ix != rows[j].ix)
  }

  ghost predicate ProperChain(chain: Chain) {
    forall h: nat :: ProperBlock(chain(h), h)
  }

  ghost predicate HeightOrder(s: seq<Index>) {
    forall i, j | 0 <= i < j < |s| :: s[i].height <= s[j].height
  }

  lemma {:induction false} FilterFacts(d: Detector, fmd: nat, rows: seq<FlagRow>)
    ensures forall x | x in Filter(d, fmd, rows) :: exists row :: row in rows && row.ix == x
    ensures (forall i, j | 0 <= i < j < |rows| :: rows[i].ix != rows[j].ix) ==> NoDup(Filter(d, fmd, rows))
  {
    if rows != [] {
      FilterFacts(d, fmd, rows[1..]);
      assert rows == [rows[0]] + rows[1..];
      var rest := Filter(d, fmd, rows[1..]);
      forall i | 0 <= i < |rest|
        ensures exists k :: 0 < k < |rows| && rows[k].ix == rest[i]
      {
        assert rest[i] in rest;
        var row :| row in rows[1..] && row.ix == rest[i];
        var k :| 0 <= k < |rows[1..]| && rows[1..][k] == row;
        assert rows[k + 1] == row;
      }
    }
  }

  ghost predicate InOrderWithin(s: seq<Index>, from: nat, upTo: nat) {
    HeightOrder(s) && NoDup(s) && forall x | x in s :: from < x.height <= upTo
  }

  lemma BlockInOrder(d: Detector, fmd: nat, chain: Chain, h: nat)
    requires ProperBlock(chain(h), h)
    ensures NoDup(Filter(d, fmd, chain(h))) && forall x | x in Filter(d, fmd, chain(h)) :: x.height == h
  {
    FilterFacts(d, fmd, chain(h));
  }

  lemma InOrderAppend(a: seq<Index>, b: seq<Index>, from: nat, h: nat)
    requires from <= h && InOrderWithin(a, from, h) && NoDup(b) && forall x | x in b :: x.height == h + 1
    ensures InOrderWithin(a + b, from, h + 1)
  {
    forall i, j | 0 <= i < j < |a + b|
      ensures (a + b)[i].height <= (a + b)[j].height && (a + b)[i] != (a + b)[j]
    {
      if i < |a| { assert a[i] in a; }
      if j >= |a| { assert b[j - |a|] in b; }
      if i >= |a| { assert b[i - |a|] in b; }
    }
  }

  ghost predicate ShotInOrder(d: Detector, fmd: nat, chain: Chain, from: nat, upTo: nat) {
    InOrderWithin(OneShot(d, fmd, chain, from, upTo), from, upTo)
  }

  lemma EmptyInOrder(d: Detector, fmd: nat, chain: Chain, from: nat)
    ensures ShotInOrder(d, fmd, chain, from, from)
  {
    OneShotEmpty(d, fmd, chain, from);
  }

  lemma OrderExtend(d: Detector, fmd: nat, chain: Chain, from: nat, upTo: nat)
    requires from <= upTo && ShotInOrder(d, fmd, chain, from, upTo) && ProperBlock(chain(upTo + 1), upTo + 1)
    ensures ShotInOrder(d, fmd, chain, from, upTo + 1)
  {
    BlockInOrder(d, fmd, chain, upTo + 1);
    OneShotExtend(d, fmd, chain, from, upTo);
    InOrderAppend(OneShot(d, fmd, chain, from, upTo), Filter(d, fmd, chain(upTo + 1)), from, upTo);
  }

  /** The one-shot list is in height order, within its blocks, and lists nothing twice. */
  lemma {:induction false} OneShotInOrder(d: Detector, fmd: nat, chain: Chain, from: nat, more: nat)
    requires ProperChain(chain)
    ensures ShotInOrder(d, fmd, chain, from, from + more)
  {
    hide ShotInOrder, ProperBlock;
    if more == 0 {
      EmptyInOrder(d, fmd, chain, from);
    } else {
      OneShotInOrder(d, fmd, chain, from, more - 1);
      assert ProperBlock(chain(from + more), from + more);
      OrderExtend(d, fmd, chain, from, from + more - 1);
    }
  }

  /** `x` stands before `y` in the block. */
  ghost predicate Precedes(rows: seq<FlagRow>, x: Index, y: Index) {
    exists p, q :: 0 <= p < q < |rows| && rows[p].ix == x && rows[q].ix == y
  }

  /** Indices of one block come in the order of its rows. */
  ghost predicate RowOrder(s: seq<Index>, chain: Chain) {
    forall i, j | 0 <= i < j < |s| && s[i].height == s[j].height :: Precedes(chain(s[i].height), s[i], s[j])
  }

  function Shifted(at: seq<nat>): (r: seq<nat>)
    ensures |r| == |at| && forall i | 0 <= i < |at| :: r[i] == at[i] + 1
  {
    seq(|at|, i requires 0 <= i < |at| => at[i] + 1)
  }

  ghost predicate Increasing(at: seq<nat>, n: nat) {
    (forall i, j | 0 <= i < j < |at| :: at[i] < at[j]) && forall i | 0 <= i < |at| :: at[i] < n
  }

  lemma {:induction false} FilterInOrder(d: Detector, fmd: nat, rows: seq<FlagRow>) returns (at: seq<nat>)
    ensures |at| == |Filter(d, fmd, rows)| && Increasing(at, |rows|)
    ensures forall i | 0 <= i < |at| :: Filter(d, fmd, rows)[i] == rows[at[i]].ix
  {
    hide Detected;
    if rows == [] {
      at := [];
    } else {
      var later := FilterInOrder(d, fmd, rows[1..]);
      if Detected(d, fmd, rows[0]) {
        at := [0] + Shifted(later);
        assert Filter(d, fmd, rows) == [rows[0].ix] + Filter(d, fmd, rows[1..]);
      } else {
        at := Shifted(later);
        assert Filter(d, fmd, rows) == Filter(d, fmd, rows[1..]);
      }
    }
  }

  lemma RowOrderExtend(d: Detector, fmd: nat, chain: Chain, s: seq<Index>, h: nat)
    requires RowOrder(s, chain) && (forall x | x in s :: x.height <= h) && ProperBlock(chain(h + 1), h + 1)
    ensures RowOrder(s + Filter(d, fmd, chain(h + 1)), chain)
  {
    var block := Filter(d, fmd, chain(h + 1));
    var all := s + block;
    var at := FilterInOrder(d, fmd, chain(h + 1));
    BlockInOrder(d, fmd, chain, h + 1);
    hide Filter, ProperBlock;
    assert forall k | 0 <= k < |s| :: s[k] in s && all[k] == s[k];
    assert forall k | 0 <= k < |block| :: block[k] in block && all[|s| + k] == block[k];
    forall i, j | 0 <= i < j < |all| && all[i].height == all[j].height
      ensures Precedes(chain(all[i].height), all[i], all[j])
    {
      if j >= |s| {
        assert all[j] == block[j - |s|] && all[j].height == h + 1;
        assert i >= |s| && all[i] == block[i - |s|];
        assert chain(h + 1)[at[i - |s|]].ix == all[i] && chain(h + 1)[at[j - |s|]].ix == all[j];
      }
    }
  }

  /** Whatever is detected in a block lies at the height of the block. */
  ghost predicate TrueBlocks(d: Detector, fmd: nat, chain: Chain, from: nat, upTo: nat) {
    forall h | from < h <= upTo :: forall x | x in Filter(d, fmd, chain(h)) :: x.height == h
  }

  lemma {:induction false} OneShotHeights(d: Detector, fmd: nat, chain: Chain, from: nat, upTo: nat)
    requires from <= upTo && TrueBlocks(d, fmd, chain, from, upTo)
    ensures forall x | x in OneShot(d, fmd, chain, from, upTo) :: x.height <= upTo
    decreases upTo
  {
    hide OneShot, Filter;
    if from == upTo {
      OneShotEmpty(d, fmd, chain, from);
    } else {
      OneShotHeights(d, fmd, chain, from, upTo - 1);
      OneShotExtend(d, fmd, chain, from, upTo - 1);
    }
  }

  lemma ProperIsTrue(d: Detector, fmd: nat, chain: Chain, from: nat, upTo: nat)
    requires ProperChain(chain)
    ensures TrueBlocks(d, fmd, chain, from, upTo)
  {
    forall h | from < h <= upTo
      ensures forall x | x in Filter(d, fmd, chain(h)) :: x.height == h
    {
      assert ProperBlock(chain(h), h);
      BlockInOrder(d, fmd, chain, h);
    }
  }

  ghost predicate ShotRowOrder(d: Detector, fmd: nat, chain: Chain, from: nat, upTo: nat) {
    RowOrder(OneShot(d, fmd, chain, from, upTo), chain)
  }

  lemma RowOrderStep(d: Detector, fmd: nat, chain: Chain, from: nat, upTo: nat)
    requires from <= upTo && TrueBlocks(d, fmd, chain, from, upTo)
    requires ShotRowOrder(d, fmd, chain, from, upTo) && ProperBlock(chain(upTo + 1), upTo + 1)
    ensures ShotRowOrder(d, fmd, chain, from, upTo + 1)
  {
    hide OneShot, RowOrder, Filter, TrueBlocks, ProperBlock;
    OneShotExtend(d, fmd, chain, from, upTo);
    OneShotHeights(d, fmd, chain, from, upTo);
    RowOrderExtend(d, fmd, chain, OneShot(d, fmd, chain, from, upTo), upTo);
  }

  lemma RowOrderStart(d: Detector, fmd: nat, chain: Chain, from: nat)
    ensures ShotRowOrder(d, fmd, chain, from, from)
  {
    OneShotEmpty(d, fmd, chain, from);
  }

  lemma {:induction false} OneShotRowOrder(d: Detector, fmd: nat, chain: Chain, from: nat, more: nat)
    requires ProperChain(chain)
    ensures ShotRowOrder(d, fmd, chain, from, from + more)
  {
    hide ShotRowOrder, ProperBlock, TrueBlocks;
    if more == 0 {
      RowOrderStart(d, fmd, chain, from);
    } else {
      OneShotRowOrder(d, fmd, chain, from, more - 1);
      ProperIsTrue(d, fmd, chain, from, from + more - 1);
      assert ProperBlock(chain(from + more), from + more);
      RowOrderStep(d, fmd, chain, from, from + more - 1);
    }
  }

  /** The row is on chain at its height, and its flag is missing or matches. */
  ghost predicate Relevant(d: Detector, fmd: nat, chain: Chain, x: Index) {
    exists row :: row in chain(x.height) && row.ix == x && (row.flag.None? || d(fmd, row.flag.value))
  }

  lemma {:induction false} FilterMembers(d: Detector, fmd: nat, rows: seq<FlagRow>, x: Index)
    ensures x in Filter(d, fmd, rows) <==> exists row :: row in rows && row.ix == x && Detected(d, fmd, row)
  {
    if rows != [] {
      FilterMembers(d, fmd, rows[1..], x);
      assert rows == [rows[0]] + rows[1..];
    }
  }

  lemma BlockMembers(d: Detector, fmd: nat, chain: Chain, h: nat, x: Index)
    requires ProperBlock(chain(h), h)
    ensures x in Filter(d, fmd, chain(h)) <==> x.height == h && Relevant(d, fmd, chain, x)
  {
    FilterMembers(d, fmd, chain(h), x);
    hide Filter;
  }

  ghost predicate ShotMember(d: Detector, fmd: nat, chain: Chain, from: nat, upTo: nat, x: Index) {
    x in OneShot(d, fmd, chain, from, upTo) <==> from < x.height <= upTo && Relevant(d, fmd, chain, x)
  }

  lemma MemberStart(d: Detector, fmd: nat, chain: Chain, from: nat, x: Index)
    ensures ShotMember(d, fmd, chain, from, from, x)
  {
    OneShotEmpty(d, fmd, chain, from);
  }

  lemma MemberStep(d: Detector, fmd: nat, chain: Chain, from: nat, upTo: nat, x: Index)
    requires from <= upTo && ShotMember(d, fmd, chain, from, upTo, x) && ProperBlock(chain(upTo + 1), upTo + 1)
    ensures ShotMember(d, fmd, chain, from, upTo + 1, x)
  {
    hide OneShot, Filter, Relevant, ProperBlock;
    OneShotExtend(d, fmd, chain, from, upTo);
    BlockMembers(d, fmd, chain, upTo + 1, x);
  }

  lemma {:induction false} OneShotMembers(d: Detector, fmd: nat, chain: Chain, from: nat, more: nat, x: Index)
    requires ProperChain(chain)
    ensures ShotMember(d, fmd, chain, from, from + more, x)
  {
    hide ShotMember, ProperBlock;
    if more == 0 {
      MemberStart(d, fmd, chain, from, x);
    } else {
      OneShotMembers(d, fmd, chain, from, more - 1, x);
      assert ProperBlock(chain(from + more), from + more);
      MemberStep(d, fmd, chain, from, from + more - 1, x);
    }
  }

  /** The law of the one-shot list on a proper chain: it lists a transaction if and only if that
      is on chain after `from` and not after `upTo` and its flag is missing or matches; by
      height, then in the order of the block's rows, and none twice. */
  lemma OneShotLaw(d: Detector, fmd: nat, chain: Chain, from: nat, upTo: nat)
    requires ProperChain(chain) && from <= upTo
    ensures var s := OneShot(d, fmd, chain, from, upTo);
      && (forall x :: x in s <==> from < x.height <= upTo && Relevant(d, fmd, chain, x))
      && InOrderWithin(s, from, upTo) && RowOrder(s, chain)
  {
    hide OneShot, Relevant, ProperChain, InOrderWithin, RowOrder;
    OneShotInOrder(d, fmd, chain, from, upTo - from);
    assert ShotInOrder(d, fmd, chain, from, upTo);
    OneShotRowOrder(d, fmd, chain, from, upTo - from);
    assert ShotRowOrder(d, fmd, chain, from, upTo);
    forall x
      ensures x in OneShot(d, fmd, chain, from, upTo) <==> from < x.height <= upTo && Relevant(d, fmd, chain, x)
    {
      OneShotMembers(d, fmd, chain, from, upTo - from, x);
      assert ShotMember(d, fmd, chain, from, upTo, x);
    }
  }

  // ----- the host's side of a round

  function NatLe(): (nat, nat) -> bool { (a: nat, b: nat) => a <= b }

  lemma NatLeIsTotal()
    ensures TotalOrder(NatLe())
  {}

  function Nexts(keys: seq<Key>): (hs: seq<nat>)
    ensures |hs| == |keys| && forall i | 0 <= i < |keys| :: hs[i] == keys[i].syncedTo + 1
  {
    seq(|keys|, i requires 0 <= i < |keys| => keys[i].syncedTo + 1)
  }

  /** The requested heights, sorted and without repetition. */
  function Heights(nexts: seq<nat>): seq<nat> {
    Dedup(Sort(NatLe(), nexts))
  }

  lemma HeightsFacts(nexts: seq<nat>)
    ensures NoDup(Heights(nexts)) && forall h: nat :: h in Heights(nexts) <==> h in nexts
    ensures forall i, j | 0 <= i < j < |Heights(nexts)| :: Heights(nexts)[i] < Heights(nexts)[j]
  {
    NatLeIsTotal();
    SortSorted(NatLe(), nexts);
    DedupSorted(NatLe(), Sort(NatLe(), nexts));
  }

  /** The query of `get_height`. */
  function RowsAt(table: seq<FlagRow>, h: nat): seq<FlagRow> {
    if table == [] then []
    else (if table[0].ix.height == h then [table[0]] else []) + RowsAt(table[1..], h)
  }

  lemma {:induction false} RowsAtMembers(table: seq<FlagRow>, h: nat, row: FlagRow)
    ensures row in RowsAt(table, h) <==> row in table && row.ix.height == h
  {
    if table != [] {
      RowsAtMembers(table[1..], h, row);
      assert table == [table[0]] + table[1..];
    }
  }

  /** The query returns each row of the height as often as the table holds it, and no other. */
  lemma {:induction false} RowsAtCounts(table: seq<FlagRow>, h: nat, row: FlagRow)
    ensures multiset(RowsAt(table, h))[row] == if row.ix.height == h then multiset(table)[row] else 0
  {
    if table != [] {
      RowsAtCounts(table[1..], h, row);
      assert table == [table[0]] + table[1..];
    }
  }

  lemma PlacesShift(table: seq<FlagRow>, found: seq<FlagRow>, later: seq<nat>)
    requires table != [] && |later| == |found| && Increasing(later, |table| - 1)
    requires forall i | 0 <= i < |later| :: found[i] == table[1..][later[i]]
    ensures Increasing(Shifted(later), |table|) && Increasing([0] + Shifted(later), |table|)
    ensures forall i | 0 <= i < |later| :: found[i] == table[Shifted(later)[i]]
  {}

  /** In table order. */
  lemma {:induction false} RowsAtInOrder(table: seq<FlagRow>, h: nat) returns (at: seq<nat>)
    ensures |at| == |RowsAt(table, h)| && Increasing(at, |table|)
    ensures forall i | 0 <= i < |at| :: RowsAt(table, h)[i] == table[at[i]]
  {
    if table == [] {
      at := [];
    } else {
      var later := RowsAtInOrder(table[1..], h);
      var found := RowsAt(table[1..], h);
      PlacesShift(table, found, later);
      if table[0].ix.height == h {
        at := [0] + Shifted(later);
        assert RowsAt(table, h) == [table[0]] + found;
      } else {
        at := Shifted(later);
        assert RowsAt(table, h) == found;
      }
      hide RowsAt;
    }
  }

  function Flags(table: seq<FlagRow>, heights: seq<nat>): seq<FlagRow> {
    if heights == [] then [] else RowsAt(table, heights[0]) + Flags(table, heights[1..])
  }

  /** What is sent: each row of a requested height as often as the table holds it. */
  lemma {:induction false} FlagsCounts(table: seq<FlagRow>, heights: seq<nat>, row: FlagRow)
    requires NoDup(heights)
    ensures multiset(Flags(table, heights))[row] == if row.ix.height in heights then multiset(table)[row] else 0
  {
    if heights != [] {
      FlagsCounts(table, heights[1..], row);
      RowsAtCounts(table, heights[0], row);
      TailMember(heights, row.ix.height);
    }
  }

  ghost predicate ByHeight(rows: seq<FlagRow>) {
    forall i, j | 0 <= i < j < |rows| :: rows[i].ix.height <= rows[j].ix.height
  }

  lemma {:induction false} FlagsByHeight(table: seq<FlagRow>, heights: seq<nat>)
    requires forall i, j | 0 <= i < j < |heights| :: heights[i] < heights[j]
    ensures ByHeight(Flags(table, heights))
    ensures forall row | row in Flags(table, heights) :: row.ix.height in heights
  {
    if heights != [] {
      var first, rest := RowsAt(table, heights[0]), Flags(table, heights[1..]);
      FlagsByHeight(table, heights[1..]);
      forall row { RowsAtMembers(table, heights[0], row); }
      assert forall h | h in heights[1..] :: heights[0] < h;
      assert forall row | row in first :: row.ix.height == heights[0];
      assert forall i | 0 <= i < |first| :: first[i] in first;
      assert forall i | 0 <= i < |rest| :: rest[i] in rest;
    }
  }

  lemma GatheredFacts(table: seq<FlagRow>, requested: seq<nat>)
    ensures var flags := Flags(table, Heights(requested));
      && ByHeight(flags)
      && forall row :: multiset(flags)[row] == if row.ix.height in requested then multiset(table)[row] else 0
  {
    hide Heights, Flags;
    HeightsFacts(requested);
    FlagsByHeight(table, Heights(requested));
    forall row
      ensures multiset(Flags(table, Heights(requested)))[row] == if row.ix.height in requested then multiset(table)[row] else 0
    {
      FlagsCounts(table, Heights(requested), row);
    }
  }

  // ----- the enclave's side

  /** The detected rows among those of height `h`. */
  function Hits(d: Detector, fmd: nat, flags: seq<FlagRow>, h: nat): seq<Index> {
    if flags == [] then []
    else (if flags[0].ix.height == h && Detected(d, fmd, flags[0]) then [flags[0].ix] else []) + Hits(d, fmd, flags[1..], h)
  }

  /** A key below the bound takes in the next block; `synced_to` goes up by one. */
  function Advance(d: Detector, bound: nat, flags: seq<FlagRow>, k: Key): Key {
    if k.syncedTo < bound
    then k.(indices := k.indices + Hits(d, k.fmd, flags, k.syncedTo + 1), syncedTo := k.syncedTo + 1)
    else k
  }

  function AdvanceAll(d: Detector, bound: nat, flags: seq<FlagRow>, keys: seq<Key>): (after: seq<Key>)
    ensures |after| == |keys| && forall i | 0 <= i < |keys| :: after[i] == Advance(d, bound, flags, keys[i])
  {
    seq(|keys|, i requires 0 <= i < |keys| => Advance(d, bound, flags, keys[i]))
  }

  lemma {:induction false} HitsAppend(d: Detector, fmd: nat, a: seq<FlagRow>, b: seq<FlagRow>, h: nat)
    ensures Hits(d, fmd, a + b, h) == Hits(d, fmd, a, h) + Hits(d, fmd, b, h)
  {
    if a == [] {
      assert a + b == b;
    } else {
      assert (a + b)[1..] == a[1..] + b;
      HitsAppend(d, fmd, a[1..], b, h);
    }
  }

  lemma {:induction false} HitsHeights(d: Detector, fmd: nat, flags: seq<FlagRow>, h: nat)
    ensures forall x | x in Hits(d, fmd, flags, h) :: x.height == h
  {
    if flags != [] { HitsHeights(d, fmd, flags[1..], h); }
  }

  /** Rows of one height hit all or not at all, by height. */
  lemma {:induction false} HitsRowsAt(d: Detector, fmd: nat, table: seq<FlagRow>, g: nat, h: nat)
    ensures Hits(d, fmd, RowsAt(table, g), h) == if g == h then Filter(d, fmd, RowsAt(table, h)) else []
  {
    if table != [] {
      HitsRowsAt(d, fmd, table[1..], g, h);
      var rest := RowsAt(table[1..], g);
      if table[0].ix.height == g {
        assert ([table[0]] + rest)[1..] == rest;
      } else {
        assert RowsAt(table, g) == rest;
      }
    }
  }

  /** Of all the flags sent, a key sees the rows of its height exactly once. */
  lemma {:induction false} HitsFlags(d: Detector, fmd: nat, table: seq<FlagRow>, heights: seq<nat>, h: nat)
    requires NoDup(heights)
    ensures Hits(d, fmd, Flags(table, heights), h) == if h in heights then Filter(d, fmd, RowsAt(table, h)) else []
  {
    if heights != [] {
      hide Filter, RowsAt, Detected;
      HitsFlags(d, fmd, table, heights[1..], h);
      HitsRowsAt(d, fmd, table, heights[0], h);
      HitsAppend(d, fmd, RowsAt(table, heights[0]), Flags(table, heights[1..]), h);
      hide Hits;
      TailMember(heights, h);
    } else {
      assert Flags(table, heights) == [];
    }
  }

  /** Without the dedup, two keys at one height would get its rows twice. */
  lemma RepeatedHeightDoubles(d: Detector, fmd: nat, table: seq<FlagRow>, h: nat)
    ensures Hits(d, fmd, Flags(table, [h, h]), h)
         == Filter(d, fmd, RowsAt(table, h)) + Filter(d, fmd, RowsAt(table, h))
  {
    assert [h, h][1..] == [h];
    assert Flags(table, [h]) == RowsAt(table, h);
    HitsRowsAt(d, fmd, table, h, h);
    HitsAppend(d, fmd, RowsAt(table, h), RowsAt(table, h), h);
  }

  // ----- a list as it was at an earlier height

  function ListTo(s: seq<Index>, h: nat): seq<Index> {
    if s == [] then [] else (if s[0].height <= h then [s[0]] else []) + ListTo(s[1..], h)
  }

  lemma {:induction false} ListToAppend(a: seq<Index>, b: seq<Index>, h: nat)
    requires forall x | x in b :: x.height > h
    ensures ListTo(a + b, h) == ListTo(a, h)
  {
    if a != [] {
      assert (a + b)[1..] == a[1..] + b;
      ListToAppend(a[1..], b, h);
    } else {
      assert a + b == b;
      if b != [] {
        assert b[0] in b && b == [] + b && b[1..] == [] + b[1..];
        ListToAppend([], b[1..], h);
      }
    }
  }

  lemma {:induction false} ListToAll(s: seq<Index>, h: nat)
    requires forall x | x in s :: x.height <= h
    ensures ListTo(s, h) == s
  {
    if s != [] {
      assert s == [s[0]] + s[1..] && s[0] in s;
      ListToAll(s[1..], h);
    }
  }

  /** Cutting the one-shot list at a height gives the one-shot list up to it. */
  lemma {:induction false} OneShotCut(d: Detector, fmd: nat, chain: Chain, from: nat, mid: nat, upTo: nat)
    requires from <= mid <= upTo && TrueBlocks(d, fmd, chain, from, upTo)
    ensures ListTo(OneShot(d, fmd, chain, from, upTo), mid) == OneShot(d, fmd, chain, from, mid)
    decreases upTo
  {
    if mid == upTo {
      OneShotHeights(d, fmd, chain, from, upTo);
      ListToAll(OneShot(d, fmd, chain, from, upTo), upTo);
    } else {
      OneShotCut(d, fmd, chain, from, mid, upTo - 1);
      OneShotExtend(d, fmd, chain, from, upTo - 1);
      ListToAppend(OneShot(d, fmd, chain, from, upTo - 1), Filter(d, fmd, chain(upTo)), mid);
    }
  }

  /** An index that only one row has is listed as often as that row occurs, if it is detected. */
  lemma {:induction false} FilterCounts(d: Detector, fmd: nat, rows: seq<FlagRow>, row: FlagRow)
    requires forall other | other in rows && other.ix == row.ix :: other == row
    ensures multiset(Filter(d, fmd, rows))[row.ix] == if Detected(d, fmd, row) then multiset(rows)[row] else 0
  {
    if rows != [] {
      assert rows == [rows[0]] + rows[1..];
      FilterCounts(d, fmd, rows[1..], row);
    }
  }

  /** Every detected row of a block within reach is in the one-shot list. */
  lemma {:induction false} OneShotHas(d: Detector, fmd: nat, chain: Chain, from: nat, upTo: nat, h: nat, row: FlagRow)
    requires from < h <= upTo && row in chain(h) && Detected(d, fmd, row)
    ensures row.ix in OneShot(d, fmd, chain, from, upTo)
    decreases upTo
  {
    hide OneShot, Filter;
    OneShotExtend(d, fmd, chain, from, upTo - 1);
    if h == upTo {
      FilterMembers(d, fmd, chain(upTo), row.ix);
    } else {
      OneShotHas(d, fmd, chain, from, upTo - 1, h, row);
    }
  }

  // ----- rounds

  /** The list of the key is the one-shot list up to its synced height. */
  ghost predicate Exact(d: Detector, chain: Chain, k: Key) {
    Start(k.birthday) <= k.syncedTo && k.indices == OneShot(d, k.fmd, chain, Start(k.birthday), k.syncedTo)
  }

  /** Every requested height that will be advanced over has all its rows in the table. */
  ghost predicate ReadsComplete(chain: Chain, table: seq<FlagRow>, bound: nat, heights: seq<nat>) {
    forall h: nat | h in heights && h <= bound :: RowsAt(table, h) == chain(h)
  }

  function Round(d: Detector, table: seq<FlagRow>, bound: nat, keys: seq<Key>): seq<Key> {
    AdvanceAll(d, bound, Flags(table, Heights(Nexts(keys))), keys)
  }

  lemma ExactInOrder(d: Detector, chain: Chain, k: Key)
    requires Exact(d, chain, k) && ProperChain(chain)
    ensures InOrderWithin(k.indices, Start(k.birthday), k.syncedTo)
  {
    OneShotInOrder(d, k.fmd, chain, Start(k.birthday), k.syncedTo - Start(k.birthday));
    assert ShotInOrder(d, k.fmd, chain, Start(k.birthday), k.syncedTo);
  }

  /** A list holds only what lies after the birthday and up to the synced height: so whatever
      was read. */
  ghost predicate InReach(k: Key) {
    Start(k.birthday) <= k.syncedTo && forall x | x in k.indices :: Start(k.birthday) < x.height <= k.syncedTo
  }

  lemma AdvanceInReach(d: Detector, bound: nat, flags: seq<FlagRow>, k: Key)
    requires InReach(k)
    ensures InReach(Advance(d, bound, flags, k))
  {
    HitsHeights(d, k.fmd, flags, k.syncedTo + 1);
  }

  /** What the flags hold of the key's next block is what the chain holds of it. */
  ghost predicate RightFlags(d: Detector, chain: Chain, bound: nat, flags: seq<FlagRow>, k: Key) {
    k.syncedTo < bound ==> Hits(d, k.fmd, flags, k.syncedTo + 1) == Filter(d, k.fmd, chain(k.syncedTo + 1))
  }

  lemma AdvanceRight(d: Detector, chain: Chain, bound: nat, flags: seq<FlagRow>, k: Key)
    requires Exact(d, chain, k)
    ensures Exact(d, chain, Advance(d, bound, flags, k)) <==> RightFlags(d, chain, bound, flags, k)
  {
    hide OneShot, Filter, Hits;
    if k.syncedTo < bound {
      OneShotExtend(d, k.fmd, chain, Start(k.birthday), k.syncedTo);
      var hits, block := Hits(d, k.fmd, flags, k.syncedTo + 1), Filter(d, k.fmd, chain(k.syncedTo + 1));
      if k.indices + hits == k.indices + block {
        assert hits == (k.indices + hits)[|k.indices|..] == (k.indices + block)[|k.indices|..] == block;
      }
    }
  }

  /** On a proper chain a list that is not exact never becomes so, whatever is read. */
  lemma InexactStays(d: Detector, chain: Chain, bound: nat, flags: seq<FlagRow>, k: Key)
    requires ProperChain(chain) && InReach(k) && Exact(d, chain, Advance(d, bound, flags, k))
    ensures Exact(d, chain, k)
  {
    hide OneShot, Hits, ListTo, ProperChain, TrueBlocks;
    if k.syncedTo < bound {
      var from, upTo := Start(k.birthday), k.syncedTo;
      var hits := Hits(d, k.fmd, flags, upTo + 1);
      assert k.indices + hits == OneShot(d, k.fmd, chain, from, upTo + 1);
      HitsHeights(d, k.fmd, flags, upTo + 1);
      ListToAll(k.indices, upTo);
      ListToAppend(k.indices, hits, upTo);
      ProperIsTrue(d, k.fmd, chain, from, upTo + 1);
      OneShotCut(d, k.fmd, chain, from, upTo, upTo + 1);
    }
  }

  /** The rows read for the key's next block, detected, are the chain's. */
  ghost predicate RightRead(d: Detector, chain: Chain, table: seq<FlagRow>, bound: nat, k: Key) {
    k.syncedTo < bound ==>
      Filter(d, k.fmd, RowsAt(table, k.syncedTo + 1)) == Filter(d, k.fmd, chain(k.syncedTo + 1))
  }

  lemma RightReadIff(d: Detector, chain: Chain, table: seq<FlagRow>, bound: nat, keys: seq<Key>, k: Key)
    requires k in keys
    ensures RightFlags(d, chain, bound, Flags(table, Heights(Nexts(keys))), k) <==> RightRead(d, chain, table, bound, k)
  {
    HeightsFacts(Nexts(keys));
    hide Heights, Flags, Hits, Filter, RowsAt;
    var i :| 0 <= i < |keys| && keys[i] == k;
    assert Nexts(keys)[i] in Nexts(keys);
    HitsFlags(d, k.fmd, table, Heights(Nexts(keys)), k.syncedTo + 1);
  }

  /** A round keeps a key's exact list exact if and only if the detected rows the host read for
      the key's next block are those of the chain; on a proper chain it repairs no other list. */
  lemma RoundExactIff(d: Detector, chain: Chain, table: seq<FlagRow>, bound: nat, keys: seq<Key>, i: nat)
    requires i < |keys| && InReach(keys[i])
    ensures var exactAfter := Exact(d, chain, Round(d, table, bound, keys)[i]);
      && (Exact(d, chain, keys[i]) ==> (exactAfter <==> RightRead(d, chain, table, bound, keys[i])))
      && (ProperChain(chain) && !Exact(d, chain, keys[i]) ==> !exactAfter)
  {
    var flags := Flags(table, Heights(Nexts(keys)));
    RightReadIff(d, chain, table, bound, keys, keys[i]);
    if Exact(d, chain, keys[i]) {
      AdvanceRight(d, chain, bound, flags, keys[i]);
    } else if ProperChain(chain) && Exact(d, chain, Advance(d, bound, flags, keys[i])) {
      InexactStays(d, chain, bound, flags, keys[i]);
    }
  }

  /** A round on complete reads keeps every key's list exact. */
  lemma RoundKeepsExact(d: Detector, chain: Chain, table: seq<FlagRow>, bound: nat, keys: seq<Key>)
    requires forall k | k in keys :: Exact(d, chain, k)
    requires ReadsComplete(chain, table, bound, Heights(Nexts(keys)))
    ensures forall k | k in Round(d, table, bound, keys) :: Exact(d, chain, k)
  {
    HeightsFacts(Nexts(keys));
    hide Exact, Advance, Heights, Flags;
    forall i | 0 <= i < |keys|
      ensures Exact(d, chain, Round(d, table, bound, keys)[i])
    {
      assert keys[i] in keys;
      assert Nexts(keys)[i] in Nexts(keys);
      assert keys[i].syncedTo < bound ==> RowsAt(table, keys[i].syncedTo + 1) == chain(keys[i].syncedTo + 1);
      RightReadIff(d, chain, table, bound, keys, keys[i]);
      AdvanceRight(d, chain, bound, Flags(table, Heights(Nexts(keys))), keys[i]);
    }
  }

  /** How far the keys are behind the bound, together. */
  function Lag(bound: nat): Key -> nat { (k: Key) => if k.syncedTo < bound then bound - k.syncedTo else 0 }
  function Lagging(bound: nat): Key -> nat { (k: Key) => if k.syncedTo < bound then 1 else 0 }

  /** Each round takes one off the lag of every lagging key. */
  lemma {:induction false} RoundLowersLag(d: Detector, flags: seq<FlagRow>, bound: nat, keys: seq<Key>)
    ensures Sum(Lag(bound), AdvanceAll(d, bound, flags, keys)) + Sum(Lagging(bound), keys) == Sum(Lag(bound), keys)
    ensures Sum(Lagging(bound), keys) == 0 <==> Sum(Lag(bound), keys) == 0
  {
    if keys != [] {
      RoundLowersLag(d, flags, bound, keys[1..]);
      var after := AdvanceAll(d, bound, flags, keys);
      assert after[1..] == AdvanceAll(d, bound, flags, keys[1..]);
      assert Lag(bound)(after[0]) + Lagging(bound)(keys[0]) == Lag(bound)(keys[0]);
    }
  }

  /** Rounds with one bound, over any contents of the table. */
  function Rounds(d: Detector, tables: seq<seq<FlagRow>>, bound: nat, keys: seq<Key>): (after: seq<Key>)
    ensures |after| == |keys|
  {
    if tables == [] then keys
    else Round(d, tables[|tables| - 1], bound, Rounds(d, tables[..|tables| - 1], bound, keys))
  }

  /** After n rounds a key below the bound has gone n blocks further, but never past it. */
  lemma {:induction false} RoundsReach(d: Detector, tables: seq<seq<FlagRow>>, bound: nat, keys: seq<Key>, i: nat)
    requires i < |keys|
    ensures Rounds(d, tables, bound, keys)[i].syncedTo ==
      (if keys[i].syncedTo >= bound then keys[i].syncedTo
       else if keys[i].syncedTo + |tables| <= bound then keys[i].syncedTo + |tables| else bound)
  {
    if tables != [] {
      RoundsReach(d, tables[..|tables| - 1], bound, keys, i);
    }
  }

  // ----- the reply

  /** An ideal cipher: only the same key and nonce open the box. */
  datatype Box = Box(key: nat, nonce: nat, plain: seq<Byte>)

  datatype Encrypted = Encrypted(owner: nat, nonce: nat, box: Box, height: nat)

  datatype Reply = FmdResults(rows: seq<Encrypted>) | Error

  /** Encryption fails beyond the cipher's longest plaintext. */
  function Seal(limit: nat, key: nat, nonce: nat, plain: seq<Byte>): Option<Box> {
    if |plain| > limit then None else Some(Box(key, nonce, plain))
  }

  function Open(key: nat, row: Encrypted): Option<seq<Byte>> {
    if row.box.key == key && row.box.nonce == row.nonce then Some(row.box.plain) else None
  }

  /** What a client gets from a stored row. */
  function Query(key: nat, row: Encrypted): Option<seq<Index>> {
    match Open(key, row) case Some(bytes) => Parse(bytes) case None => None
  }

  /** `add_result`: an earlier error stays, a new one replaces. */
  function AddResult(limit: nat, k: Key, nonce: nat, reply: Reply): Reply {
    match Seal(limit, k.enc, nonce, EncodeAll(k.indices))
    case None => Error
    case Some(box) =>
      match reply
      case Error => Error
      case FmdResults(rows) => FmdResults(rows + [Encrypted(k.enc, nonce, box, k.syncedTo)])
  }

  /** The key with the new indices, before `advance`. */
  function Pushed(d: Detector, flags: seq<FlagRow>, k: Key): Key {
    k.(indices := k.indices + Hits(d, k.fmd, flags, k.syncedTo + 1))
  }

  /** The reply to the first `n` keys. */
  function Respond(d: Detector, limit: nat, nonces: nat -> nat, bound: nat, flags: seq<FlagRow>, keys: seq<Key>, n: nat): Reply
    requires n <= |keys|
  {
    if n == 0 then FmdResults([])
    else
      var reply := Respond(d, limit, nonces, bound, flags, keys, n - 1);
      if keys[n - 1].syncedTo < bound then AddResult(limit, Pushed(d, flags, keys[n - 1]), nonces(n - 1), reply) else reply
  }

  /** The stored row is what the key's list was when it stood one above the row's height. */
  ghost predicate RowFor(k: Key, row: Encrypted) {
    && row.owner == k.enc && row.height + 1 == k.syncedTo
    && row.box == Box(k.enc, row.nonce, EncodeAll(k.indices))
  }

  /** The owner's client decrypts and parses such a row to the key's list. */
  lemma QueryRow(k: Key, row: Encrypted)
    requires RowFor(k, row)
    ensures Query(k.enc, row) == Some(k.indices)
  {
    EncodeThenParse(k.indices);
  }

  /** The row holds the key's list as it was when the key stood one above the row's height. */
  ghost predicate RowHolds(k: Key, row: Encrypted) {
    && row.owner == k.enc && Start(k.birthday) <= row.height < k.syncedTo
    && row.box == Box(k.enc, row.nonce, EncodeAll(ListTo(k.indices, row.height + 1)))
  }

  lemma RowForHolds(k: Key, row: Encrypted)
    requires RowFor(k, row) && InReach(k) && Start(k.birthday) < k.syncedTo
    ensures RowHolds(k, row)
  {
    ListToAll(k.indices, k.syncedTo);
  }

  /** It stays so when the key moves on. */
  lemma HoldsAdvance(d: Detector, bound: nat, flags: seq<FlagRow>, k: Key, row: Encrypted)
    requires RowHolds(k, row)
    ensures RowHolds(Advance(d, bound, flags, k), row)
  {
    if k.syncedTo < bound {
      var hits := Hits(d, k.fmd, flags, k.syncedTo + 1);
      HitsHeights(d, k.fmd, flags, k.syncedTo + 1);
      ListToAppend(k.indices, hits, row.height + 1);
    }
  }

  /** Its owner's client reads that list; another key, or another nonce, opens nothing. */
  lemma QueryHolds(k: Key, row: Encrypted)
    requires RowHolds(k, row)
    ensures Query(k.enc, row) == Some(ListTo(k.indices, row.height + 1))
    ensures forall key: nat | key != k.enc :: Query(key, row) == None
    ensures forall key: nat, nonce: nat | nonce != row.nonce :: Query(key, row.(nonce := nonce)) == None
  {
    EncodeThenParse(ListTo(k.indices, row.height + 1));
  }

  /** One row for each of the first `n` keys that was advanced, in key order, under its own nonce. */
  ghost predicate RowsMatch(nonces: nat -> nat, keys: seq<Key>, after: seq<Key>, bound: nat, n: nat, rows: seq<Encrypted>)
    requires n <= |keys| == |after|
  {
    if n == 0 then rows == []
    else if keys[n - 1].syncedTo < bound then
      && rows != [] && RowFor(after[n - 1], rows[|rows| - 1]) && rows[|rows| - 1].nonce == nonces(n - 1)
      && RowsMatch(nonces, keys, after, bound, n - 1, rows[..|rows| - 1])
    else RowsMatch(nonces, keys, after, bound, n - 1, rows)
  }

  /** Some advanced key's list is longer than the cipher takes. */
  ghost predicate TooLong(keys: seq<Key>, after: seq<Key>, bound: nat, n: nat, limit: nat)
    requires n <= |keys| == |after|
  {
    n > 0 && ((keys[n - 1].syncedTo < bound && 12 * |after[n - 1].indices| > limit) || TooLong(keys, after, bound, n - 1, limit))
  }

  /** What one lagging key adds to the reply. */
  lemma RespondOne(limit: nat, k: Key, nonce: nat, before: Reply)
    ensures var reply := AddResult(limit, k, nonce, before);
      && (reply.Error? <==> before.Error? || 12 * |k.indices| > limit)
      && (reply.FmdResults? ==>
            reply.rows != [] && reply.rows[..|reply.rows| - 1] == before.rows
            && RowFor(k.(syncedTo := k.syncedTo + 1), reply.rows[|reply.rows| - 1])
            && reply.rows[|reply.rows| - 1].nonce == nonce)
  {
    EncodeThenParse(k.indices);
  }

  /** A reply has a row for every advanced key and no other; it is an error exactly when one
      of them has more indices than the cipher takes. */
  lemma {:induction false} RespondRows(d: Detector, limit: nat, nonces: nat -> nat, bound: nat, flags: seq<FlagRow>, keys: seq<Key>, n: nat)
    requires n <= |keys|
    ensures var after := AdvanceAll(d, bound, flags, keys);
      var reply := Respond(d, limit, nonces, bound, flags, keys, n);
      && (reply.Error? <==> TooLong(keys, after, bound, n, limit))
      && (reply.FmdResults? ==> RowsMatch(nonces, keys, after, bound, n, reply.rows))
  {
    if n > 0 {
      RespondRows(d, limit, nonces, bound, flags, keys, n - 1);
      RespondOne(limit, Pushed(d, flags, keys[n - 1]), nonces(n - 1), Respond(d, limit, nonces, bound, flags, keys, n - 1));
      hide AddResult, RowFor;
    }
  }

  lemma {:induction false} MatchedRow(nonces: nat -> nat, keys: seq<Key>, after: seq<Key>, bound: nat, n: nat, rows: seq<Encrypted>, row: Encrypted) returns (i: nat)
    requires n <= |keys| == |after| && RowsMatch(nonces, keys, after, bound, n, rows) && row in rows
    ensures i < n && keys[i].syncedTo < bound && RowFor(after[i], row) && row.nonce == nonces(i)
  {
    if keys[n - 1].syncedTo < bound {
      var last := |rows| - 1;
      if row == rows[last] {
        i := n - 1;
      } else {
        assert rows == rows[..last] + [rows[last]];
        i := MatchedRow(nonces, keys, after, bound, n - 1, rows[..last], row);
      }
    } else {
      i := MatchedRow(nonces, keys, after, bound, n - 1, rows, row);
    }
  }

  lemma {:induction false} MatchedKey(nonces: nat -> nat, keys: seq<Key>, after: seq<Key>, bound: nat, n: nat, rows: seq<Encrypted>, i: nat) returns (row: Encrypted)
    requires n <= |keys| == |after| && RowsMatch(nonces, keys, after, bound, n, rows) && i < n && keys[i].syncedTo < bound
    ensures row in rows && RowFor(after[i], row)
  {
    if i == n - 1 {
      row := rows[|rows| - 1];
    } else if keys[n - 1].syncedTo < bound {
      row := MatchedKey(nonces, keys, after, bound, n - 1, rows[..|rows| - 1], i);
    } else {
      row := MatchedKey(nonces, keys, after, bound, n - 1, rows, i);
    }
  }

  // ----- the table of results

  type Results = map<nat, Encrypted>

  /** INSERT OR REPLACE by owner, row after row. */
  function Updated(db: Results, rows: seq<Encrypted>): Results
    decreases rows
  {
    if rows == [] then db else Updated(db[rows[0].owner := rows[0]], rows[1..])
  }

  lemma {:induction false} UpdatedFacts(db: Results, rows: seq<Encrypted>)
    ensures forall o :: o in Updated(db, rows) <==> o in db || exists row :: row in rows && row.owner == o
    ensures forall o | o in Updated(db, rows) ::
      (exists row :: row in rows && row.owner == o && Updated(db, rows)[o] == row)
      || ((forall row | row in rows :: row.owner != o) && o in db && Updated(db, rows)[o] == db[o])
    decreases rows
  {
    if rows != [] {
      UpdatedFacts(db[rows[0].owner := rows[0]], rows[1..]);
      assert rows == [rows[0]] + rows[1..];
    }
  }

  /** Of several rows for one owner the last one stays. */
  lemma {:induction false} LastRowStays(db: Results, rows: seq<Encrypted>, i: nat)
    requires i < |rows| && forall j | i < j < |rows| :: rows[j].owner != rows[i].owner
    ensures rows[i].owner in Updated(db, rows) && Updated(db, rows)[rows[i].owner] == rows[i]
    decreases rows
  {
    var db1 := db[rows[0].owner := rows[0]];
    if i == 0 {
      UpdatedFacts(db1, rows[1..]);
      assert forall row | row in rows[1..] :: row.owner != rows[0].owner;
    } else {
      LastRowStays(db1, rows[1..], i - 1);
    }
  }

  /** No encryption key is registered twice. */
  ghost predicate DistinctOwners(keys: seq<Key>) {
    forall i, j | 0 <= i < j < |keys| :: keys[i].enc != keys[j].enc
  }

  lemma SameOwner(keys: seq<Key>, i: nat, j: nat)
    requires i < |keys| && j < |keys| && DistinctOwners(keys) && keys[i].enc == keys[j].enc
    ensures i == j
  {}

  /** After a successful round each advanced key's row opens to its list, at the height the key
      has just left; the rows of all other owners are as before. */
  lemma RoundStoresRows(d: Detector, limit: nat, nonces: nat -> nat, bound: nat, flags: seq<FlagRow>, keys: seq<Key>, db: Results, i: nat)
    requires i < |keys| && DistinctOwners(keys)
    requires Respond(d, limit, nonces, bound, flags, keys, |keys|).FmdResults?
    ensures var after, o := AdvanceAll(d, bound, flags, keys)[i], keys[i].enc;
      var db' := Updated(db, Respond(d, limit, nonces, bound, flags, keys, |keys|).rows);
      if keys[i].syncedTo < bound then
        o in db' && db'[o].height + 1 == after.syncedTo && db'[o].nonce == nonces(i) && Query(o, db'[o]) == Some(after.indices)
      else
        (o in db' <==> o in db) && (o in db ==> db'[o] == db[o])
  {
    var after := AdvanceAll(d, bound, flags, keys);
    var rows := Respond(d, limit, nonces, bound, flags, keys, |keys|).rows;
    var o := keys[i].enc;
    RespondRows(d, limit, nonces, bound, flags, keys, |keys|);
    UpdatedFacts(db, rows);
    if keys[i].syncedTo < bound {
      var row := MatchedKey(nonces, keys, after, bound, |keys|, rows, i);
    }
    if row :| row in rows && row.owner == o && Updated(db, rows)[o] == row {
      var j := MatchedRow(nonces, keys, after, bound, |keys|, rows, row);
      SameOwner(keys, i, j);
      QueryRow(after[i], row);
    }
  }

  // ----- the objects

  class Enclave {
    var keys: seq<Key>

    constructor ()
      ensures keys == []
    {
      keys := [];
    }

    /** The new key comes last, as it was sent: it will next ask for the block after its
        birthday, or for block 2, and its list is right for every chain from the start. */
    method Register(fmd: nat, enc: nat, birthday: Option<nat>)
      modifies this
      ensures |keys| == |old(keys)| + 1 && keys[..|old(keys)|] == old(keys)
      ensures var k := keys[|old(keys)|];
        && k.fmd == fmd && k.enc == enc && k.birthday == birthday && k.indices == []
        && k.syncedTo == (if birthday.Some? then birthday.value else 1)
        && forall d, chain :: Exact(d, chain, k)
    {
      forall d, chain { OneShotEmpty(d, fmd, chain, Start(birthday)); }
      keys := keys + [NewKey(fmd, enc, birthday)];
    }

    /** The flags of the key's next block, one by one. */
    method PushHits(d: Detector, flags: seq<FlagRow>, key0: Key) returns (key: Key)
      ensures key == Pushed(d, flags, key0)
    {
      key := key0;
      var h := key.syncedTo + 1;
      var j := 0;
      while j < |flags|
        invariant 0 <= j <= |flags|
        invariant key == key0.(indices := key.indices)
        invariant key.indices + Hits(d, key0.fmd, flags[j..], h) == key0.indices + Hits(d, key0.fmd, flags, h)
      {
        assert flags[j..][1..] == flags[j + 1..];
        if flags[j].ix.height == key.syncedTo + 1 && Detected(d, key.fmd, flags[j]) {
          key := key.(indices := key.indices + [flags[j].ix]);
        }
        j := j + 1;
      }
      assert flags[j..] == [];
    }

    /** Check the flags against all registered keys and build the reply. */
    method CheckFlags(d: Detector, limit: nat, nonces: nat -> nat, bound: nat, flags: seq<FlagRow>) returns (response: Reply)
      modifies this
      ensures keys == AdvanceAll(d, bound, flags, old(keys))
      ensures response == Respond(d, limit, nonces, bound, flags, old(keys), |old(keys)|)
    {
      hide AddResult, Hits;
      response := FmdResults([]);
      var i := 0;
      while i < |keys|
        invariant 0 <= i <= |keys| == |old(keys)|
        invariant forall j | 0 <= j < i :: keys[j] == Advance(d, bound, flags, old(keys)[j])
        invariant forall j | i <= j < |keys| :: keys[j] == old(keys)[j]
        invariant response == Respond(d, limit, nonces, bound, flags, old(keys), i)
      {
        if keys[i].syncedTo < bound {
          var key := PushHits(d, flags, keys[i]);
          response := AddResult(limit, key, nonces(i), response);
          keys := keys[i := key.(syncedTo := key.syncedTo + 1)];
        }
        i := i + 1;
      }
    }
  }

  class HostDb {
    var txs: seq<FlagRow>
    var results: Results

    constructor (txs: seq<FlagRow>)
      ensures this.txs == txs && results == map[]
    {
      this.txs := txs;
      results := map[];
    }

    /** Sort and dedup the requested heights and read their rows. */
    method GatherFlags(requested: seq<nat>) returns (flags: seq<FlagRow>)
      ensures flags == Flags(txs, Heights(requested))
      ensures forall row :: multiset(flags)[row] == if row.ix.height in requested then multiset(txs)[row] else 0
      ensures ByHeight(flags)
    {
      var ranges := Sort(NatLe(), requested);
      ranges := Dedup(ranges);
      assert ranges == Heights(requested);
      hide Heights, Sort, Dedup, ByHeight, RowsAt;
      flags := [];
      var i := 0;
      while i < |ranges|
        invariant 0 <= i <= |ranges|
        invariant flags + Flags(txs, ranges[i..]) == Flags(txs, ranges)
      {
        assert ranges[i..][1..] == ranges[i + 1..];
        flags := flags + RowsAt(txs, ranges[i]);
        i := i + 1;
      }
      GatheredFacts(txs, requested);
    }

    method UpdateIndices(newIndices: seq<Encrypted>)
      modifies this`results
      ensures results == Updated(old(results), newIndices)
    {
      var i := 0;
      while i < |newIndices|
        invariant 0 <= i <= |newIndices|
        invariant Updated(results, newIndices[i..]) == Updated(old(results), newIndices)
      {
        assert newIndices[i..][1..] == newIndices[i + 1..];
        results := results[newIndices[i].owner := newIndices[i]];
        i := i + 1;
      }
      assert newIndices[i..] == [];
    }
  }
}
