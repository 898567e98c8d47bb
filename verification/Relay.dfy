/** Host and enclave taking turns on one connection: the registration relay and the detection
    round of host/src/main.rs against the message loop of enclave/src/lib.rs and ratls.rs.

    A run is any list of events: a client connects and later answers, or not, with anything;
    the host starts a round; either side reads its next message.  A read with nothing to read
    changes nothing.  In a round the host reads any rows and any bound: nothing is assumed of
    what its table holds at that moment.  Framing is reliable. */
module Relay {
  import opened Options
  import opened IndexLists
  import opened IndexCodec
  import opened Fmd

  /** What the host assumes nothing about: a key the enclave can decrypt, or not. */
  datatype Registration = Registration(fmd: nat, enc: nat, birthday: Option<nat>)

  datatype AckType = Success(payload: Option<Registration>) | Fail

  datatype MsgFromHost =
    | Basic
    | RegisterKey(contributory: bool)
    | RequestReport
    | RatlsAck(ack: AckType)
    | RequiredBlocks
    | RequestedFlags(bound: nat, flags: seq<FlagRow>)

  datatype MsgToHost =
    | EnclaveError
    | ErrorForClient
    | Ratls
    | Report
    | KeyRegSuccess
    | BlockRequests(heights: seq<nat>)
    | Results(rows: seq<Encrypted>)

  /** Where the host is: its event loop, or waiting inside a handler. */
  datatype HostPc = Events | RegFirst | RegClient | RegFinal | FmdBlocks | FmdFlags

  datatype Config = Config(d: Detector, chain: Chain, limit: nat)

  datatype EnclaveState = EnclaveState(awaitsAck: bool, keys: seq<Key>)

  datatype State = State(
    host: HostPc,
    enclave: EnclaveState,
    toEnclave: seq<MsgFromHost>,
    toHost: seq<MsgToHost>,
    db: Fmd.Results,
    told: nat)            // how often a client was told its key is registered

  datatype Event =
    | ClientConnects(register: bool, contributory: bool)
    | ClientAnswers(answer: Option<AckType>)
    | StartFmd
    | HostReads(table: seq<FlagRow>, bound: nat)
    | EnclaveReads(nonces: nat -> nat)

  // ----- the enclave

  function ReplyMsg(r: Reply): MsgToHost {
    match r case FmdResults(rows) => Results(rows) case Error => EnclaveError
  }

  /** One message through the enclave's loop, or through the wait inside `register_key`. */
  function EnclaveStep(c: Config, e: EnclaveState, msg: MsgFromHost, nonces: nat -> nat): (EnclaveState, seq<MsgToHost>) {
    if e.awaitsAck then
      var e1 := e.(awaitsAck := false);
      match msg
      case RatlsAck(Success(Some(reg))) => (e1.(keys := e.keys + [NewKey(reg.fmd, reg.enc, reg.birthday)]), [KeyRegSuccess])
      case RatlsAck(Success(None)) => (e1, [ErrorForClient])
      case RatlsAck(Fail) => (e1, [])
      case _ => (e1, [EnclaveError])
    else
      match msg
      case RegisterKey(contributory) => if contributory then (e.(awaitsAck := true), [Ratls]) else (e, [ErrorForClient])
      case RequestReport => (e, [Report])
      case RequiredBlocks => (e, [BlockRequests(Nexts(e.keys))])
      case RequestedFlags(bound, flags) =>
        (e.(keys := AdvanceAll(c.d, bound, flags, e.keys)),
         [ReplyMsg(Respond(c.d, c.limit, nonces, bound, flags, e.keys, |e.keys|))])
      case _ => (e, [])
  }

  // ----- the host

  function Send(s: State, msg: MsgFromHost, host: HostPc): State {
    s.(toEnclave := s.toEnclave + [msg], host := host)
  }

  function Abort(s: State): State {
    Send(s, RatlsAck(Fail), Events)
  }

  /** Messages that `ServerMsg::try_from` passes on to a client. */
  predicate ForClient(m: MsgToHost) {
    m.Ratls? || m.ErrorForClient? || m.KeyRegSuccess?
  }

  function Forward(s: State, m: MsgToHost): State {
    if m == KeyRegSuccess then s.(told := s.told + 1) else s
  }

  /** The host takes in a message of the enclave; in a round it reads `table` and `bound`. */
  function HostTakes(s: State, m: MsgToHost, table: seq<FlagRow>, bound: nat): State {
    match s.host
    case RegFirst => if ForClient(m) then Forward(s, m).(host := RegClient) else Abort(s)
    case RegFinal => if ForClient(m) then Forward(s, m).(host := Events) else Abort(s)
    case FmdBlocks =>
      if !m.BlockRequests? || Heights(m.heights) == [] then s.(host := Events)
      else Send(s, RequestedFlags(bound, Flags(table, Heights(m.heights))), FmdFlags)
    case FmdFlags => if m.Results? then s.(host := Events, db := Updated(s.db, m.rows)) else s.(host := Events)
    case _ => s
  }

  function Apply(c: Config, s: State, ev: Event): State {
    match ev
    case ClientConnects(register, contributory) =>
      if s.host == Events && register then Send(s, RegisterKey(contributory), RegFirst) else s
    case ClientAnswers(answer) =>
      if s.host != RegClient then s
      else if answer.Some? then Send(s, RatlsAck(answer.value), RegFinal) else Abort(s)
    case StartFmd =>
      if s.host == Events then Send(s, RequiredBlocks, FmdBlocks) else s
    case HostReads(table, bound) =>
      if s.host == Events || s.host == RegClient || s.toHost == [] then s
      else HostTakes(s.(toHost := s.toHost[1..]), s.toHost[0], table, bound)
    case EnclaveReads(nonces) =>
      if s.toEnclave == [] then s
      else
        var (e, out) := EnclaveStep(c, s.enclave, s.toEnclave[0], nonces);
        s.(enclave := e, toEnclave := s.toEnclave[1..], toHost := s.toHost + out)
  }

  const INIT := State(Events, EnclaveState(false, []), [], [], map[], 0)

  function RunFrom(c: Config, s: State, evs: seq<Event>): State {
    if evs == [] then s else Apply(c, RunFrom(c, s, evs[..|evs| - 1]), evs[|evs| - 1])
  }

  function Run(c: Config, evs: seq<Event>): State {
    RunFrom(c, INIT, evs)
  }

  // ----- the invariant

  /** The enclave will come back to its loop without a word after reading `q`. */
  ghost predicate Quiet(awaits: bool, q: seq<MsgFromHost>) {
    || (q == [] && !awaits)
    || (|q| == 1 && q[0].RatlsAck? && (awaits ==> q[0].ack == Fail))
  }

  /** The reply to the host's last request is still to be made, or is the one message there. */
  ghost predicate Turn(s: State) {
    var q, awaits := s.toEnclave, s.enclave.awaitsAck;
    match s.host
    case Events => s.toHost == [] && Quiet(awaits, q)
    case RegFirst =>
      || (s.toHost == [] && q != [] && q[|q| - 1].RegisterKey? && Quiet(awaits, q[..|q| - 1]))
      || (q == [] && s.toHost == if awaits then [Ratls] else [ErrorForClient])
    case RegClient => s.toHost == [] && q == []
    case RegFinal =>
      || (s.toHost == [] && ((|q| == 1 && q[0].RatlsAck?) || (q == [] && !awaits)))
      || (q == [] && !awaits && (s.toHost == [KeyRegSuccess] || s.toHost == [ErrorForClient]))
    case FmdBlocks =>
      || (s.toHost == [] && q != [] && q[|q| - 1] == RequiredBlocks && Quiet(awaits, q[..|q| - 1]))
      || (q == [] && !awaits && s.toHost == [BlockRequests(Nexts(s.enclave.keys))])
    case FmdFlags =>
      && !awaits
      && ((s.toHost == [] && |q| == 1 && q[0].RequestedFlags?)
          || (q == [] && |s.toHost| == 1 && (s.toHost[0].Results? || s.toHost[0].EnclaveError?)))
  }

  ghost predicate Told(s: State) {
    s.told + (if s.toHost == [KeyRegSuccess] then 1 else 0) == |s.enclave.keys|
  }

  ghost predicate KeysInReach(keys: seq<Key>) {
    forall k | k in keys :: InReach(k)
  }

  /** The row holds some registered key's list as it was. */
  ghost predicate Stored(keys: seq<Key>, row: Encrypted) {
    exists i :: 0 <= i < |keys| && RowHolds(keys[i], row)
  }

  ghost predicate OwnRow(keys: seq<Key>, o: nat, row: Encrypted) {
    row.owner == o && Stored(keys, row)
  }

  ghost predicate DbGood(keys: seq<Key>, db: Fmd.Results) {
    forall o | o in db :: OwnRow(keys, o, db[o])
  }

  ghost predicate AllStored(keys: seq<Key>, rows: seq<Encrypted>) {
    forall row | row in rows :: Stored(keys, row)
  }

  /** Rows on their way are newer than what is stored. */
  ghost predicate AllNewer(db: Fmd.Results, rows: seq<Encrypted>) {
    forall row | row in rows && row.owner in db :: db[row.owner].height < row.height
  }

  predicate ResultsPending(s: State) {
    s.toHost != [] && s.toHost[0].Results?
  }

  ghost predicate RowsGood(s: State) {
    && DbGood(s.enclave.keys, s.db)
    && (ResultsPending(s) ==> AllStored(s.enclave.keys, s.toHost[0].rows))
  }

  ghost predicate RowsNewer(s: State) {
    ResultsPending(s) && DistinctOwners(s.enclave.keys) ==> AllNewer(s.db, s.toHost[0].rows)
  }

  ghost predicate Inv(s: State) {
    Turn(s) && Told(s) && KeysInReach(s.enclave.keys) && RowsGood(s) && RowsNewer(s)
  }

  // ----- every event keeps the invariant

  lemma TurnSends(c: Config, s: State, ev: Event)
    requires Turn(s) && (ev.ClientConnects? || ev.StartFmd? || ev.ClientAnswers?)
    ensures Turn(Apply(c, s, ev))
  {
    var s1 := Apply(c, s, ev);
    if s1.toEnclave != s.toEnclave {
      assert s1.toEnclave[..|s1.toEnclave| - 1] == s.toEnclave;
    }
  }

  lemma TurnHostReads(c: Config, s: State, table: seq<FlagRow>, bound: nat)
    requires Turn(s)
    ensures Turn(Apply(c, s, HostReads(table, bound)))
  {}

  lemma TurnEnclaveReads(c: Config, s: State, nonces: nat -> nat)
    requires Turn(s)
    ensures Turn(Apply(c, s, EnclaveReads(nonces)))
  {
    var s1 := Apply(c, s, EnclaveReads(nonces));
    if s.toEnclave != [] {
      if |s.toEnclave| == 2 {
        assert s1.toEnclave[..|s1.toEnclave| - 1] == [];
        assert s.toEnclave[..1][0] == s.toEnclave[0];
      }
    }
  }

  lemma TurnKept(c: Config, s: State, ev: Event)
    requires Turn(s)
    ensures Turn(Apply(c, s, ev))
  {
    match ev
    case HostReads(table, bound) => TurnHostReads(c, s, table, bound);
    case EnclaveReads(nonces) => TurnEnclaveReads(c, s, nonces);
    case _ => TurnSends(c, s, ev);
  }

  lemma ToldKept(c: Config, s: State, ev: Event)
    requires Turn(s) && Told(s)
    ensures Told(Apply(c, s, ev))
  {
    if ev.EnclaveReads? && s.toEnclave != [] {
      var (e, out) := EnclaveStep(c, s.enclave, s.toEnclave[0], ev.nonces);
      assert s.toHost + out == out;
    } else if ev.HostReads? && s.toHost != [] {
      assert s.toHost == [s.toHost[0]] && s.toHost[1..] == [];
    }
  }

  /** What the enclave does to its keys: it may advance them all, or register one more. */
  ghost predicate KeysMove(c: Config, before: seq<Key>, after: seq<Key>) {
    || after == before
    || (exists bound, flags :: after == AdvanceAll(c.d, bound, flags, before))
    || (exists fmd, enc, birthday :: after == before + [NewKey(fmd, enc, birthday)])
  }

  lemma EnclaveMoves(c: Config, e: EnclaveState, msg: MsgFromHost, nonces: nat -> nat)
    ensures KeysMove(c, e.keys, EnclaveStep(c, e, msg, nonces).0.keys)
  {}

  lemma EventMoves(c: Config, s: State, ev: Event)
    ensures KeysMove(c, s.enclave.keys, Apply(c, s, ev).enclave.keys)
  {
    if ev.EnclaveReads? && s.toEnclave != [] {
      EnclaveMoves(c, s.enclave, s.toEnclave[0], ev.nonces);
    }
  }

  lemma InReachKept(c: Config, before: seq<Key>, after: seq<Key>)
    requires KeysInReach(before) && KeysMove(c, before, after)
    ensures KeysInReach(after)
  {
    if bound, flags :| after == AdvanceAll(c.d, bound, flags, before) {
      forall i | 0 <= i < |after|
        ensures InReach(after[i])
      {
        assert before[i] in before;
        AdvanceInReach(c.d, bound, flags, before[i]);
      }
    }
  }

  /** A stored row stays right when its key moves on or another key is registered. */
  lemma StoredKept(c: Config, before: seq<Key>, after: seq<Key>, row: Encrypted)
    requires KeysMove(c, before, after) && Stored(before, row)
    ensures Stored(after, row)
  {
    var i :| 0 <= i < |before| && RowHolds(before[i], row);
    if bound, flags :| after == AdvanceAll(c.d, bound, flags, before) {
      HoldsAdvance(c.d, bound, flags, before[i], row);
      assert RowHolds(after[i], row);
    } else {
      assert RowHolds(after[i], row);
    }
  }

  lemma DbKept(c: Config, before: seq<Key>, after: seq<Key>, db: Fmd.Results)
    requires DbGood(before, db) && KeysMove(c, before, after)
    ensures DbGood(after, db)
  {
    hide KeysMove, Stored;
    forall o | o in db
      ensures OwnRow(after, o, db[o])
    {
      assert OwnRow(before, o, db[o]);
      StoredKept(c, before, after, db[o]);
    }
  }

  lemma HeldIsOlder(keys: seq<Key>, db: Fmd.Results, i: nat)
    requires i < |keys| && DistinctOwners(keys) && DbGood(keys, db) && keys[i].enc in db
    ensures db[keys[i].enc].height < keys[i].syncedTo
  {
    var o := keys[i].enc;
    assert OwnRow(keys, o, db[o]);
    var j :| 0 <= j < |keys| && RowHolds(keys[j], db[o]);
    SameOwner(keys, i, j);
  }

  /** The rows of a reply hold the lists just reached, and are newer than what is stored. */
  lemma ReplyArrives(c: Config, keys: seq<Key>, db: Fmd.Results, bound: nat, flags: seq<FlagRow>, nonces: nat -> nat)
    requires KeysInReach(keys) && DbGood(keys, db)
    requires Respond(c.d, c.limit, nonces, bound, flags, keys, |keys|).FmdResults?
    ensures var rows := Respond(c.d, c.limit, nonces, bound, flags, keys, |keys|).rows;
      AllStored(AdvanceAll(c.d, bound, flags, keys), rows) && (DistinctOwners(keys) ==> AllNewer(db, rows))
  {
    var after := AdvanceAll(c.d, bound, flags, keys);
    var rows := Respond(c.d, c.limit, nonces, bound, flags, keys, |keys|).rows;
    RespondRows(c.d, c.limit, nonces, bound, flags, keys, |keys|);
    hide Respond, DbGood, RowHolds;
    forall row | row in rows
      ensures Stored(after, row)
      ensures DistinctOwners(keys) && row.owner in db ==> db[row.owner].height < row.height
    {
      var i := MatchedRow(nonces, keys, after, bound, |keys|, rows, row);
      assert keys[i] in keys;
      AdvanceInReach(c.d, bound, flags, keys[i]);
      RowForHolds(after[i], row);
      if DistinctOwners(keys) && row.owner in db { HeldIsOlder(keys, db, i); }
    }
  }

  lemma OwnersBefore(c: Config, before: seq<Key>, after: seq<Key>)
    requires KeysMove(c, before, after) && DistinctOwners(after)
    ensures DistinctOwners(before)
  {
    forall i, j | 0 <= i < j < |before|
      ensures before[i].enc != before[j].enc
    {
      assert after[i].enc != after[j].enc;
    }
  }

  lemma RowsKeptByEnclave(c: Config, s: State, nonces: nat -> nat)
    requires Inv(s) && s.toEnclave != []
    ensures var s1 := Apply(c, s, EnclaveReads(nonces));
      KeysInReach(s1.enclave.keys) && RowsGood(s1) && RowsNewer(s1)
  {
    var s1 := Apply(c, s, EnclaveReads(nonces));
    EnclaveMoves(c, s.enclave, s.toEnclave[0], nonces);
    InReachKept(c, s.enclave.keys, s1.enclave.keys);
    DbKept(c, s.enclave.keys, s1.enclave.keys, s.db);
    assert s.toHost == [];
    hide DbGood, AllStored, AllNewer, KeysInReach, DistinctOwners, KeysMove;
    if ResultsPending(s1) {
      ReplyArrives(c, s.enclave.keys, s.db, s.toEnclave[0].bound, s.toEnclave[0].flags, nonces);
      if DistinctOwners(s1.enclave.keys) { OwnersBefore(c, s.enclave.keys, s1.enclave.keys); }
    }
  }

  ghost predicate Grown(db: Fmd.Results, db': Fmd.Results) {
    forall o | o in db :: o in db' && (db'[o] == db[o] || db[o].height < db'[o].height)
  }

  /** Replacing rows by arriving ones keeps the table right, and heights only grow. */
  lemma ArrivedRows(keys: seq<Key>, db: Fmd.Results, rows: seq<Encrypted>)
    requires DbGood(keys, db) && AllStored(keys, rows)
    ensures DbGood(keys, Updated(db, rows)) && (AllNewer(db, rows) ==> Grown(db, Updated(db, rows)))
  {
    var db' := Updated(db, rows);
    UpdatedFacts(db, rows);
    hide Stored, Updated;
    forall o | o in db'
      ensures OwnRow(keys, o, db'[o])
      ensures AllNewer(db, rows) && o in db ==> db'[o] == db[o] || db[o].height < db'[o].height
    {
      if row :| row in rows && row.owner == o && db'[o] == row {
        assert Stored(keys, row);
      } else {
        assert OwnRow(keys, o, db[o]);
      }
    }
  }

  lemma HostReadsDb(c: Config, s: State, table: seq<FlagRow>, bound: nat)
    requires Turn(s)
    ensures var s1 := Apply(c, s, HostReads(table, bound));
      s1 == s || (s1.toHost == [] && s1.enclave == s.enclave
                  && s1.db == if ResultsPending(s) then Updated(s.db, s.toHost[0].rows) else s.db)
  {}

  lemma RowsKeptByHost(c: Config, s: State, table: seq<FlagRow>, bound: nat)
    requires Turn(s) && RowsGood(s) && RowsNewer(s)
    ensures var s1 := Apply(c, s, HostReads(table, bound));
      RowsGood(s1) && RowsNewer(s1) && s1.enclave == s.enclave && (DistinctOwners(s.enclave.keys) ==> Grown(s.db, s1.db))
  {
    HostReadsDb(c, s, table, bound);
    hide Turn, Apply;
    if ResultsPending(s) {
      ArrivedRows(s.enclave.keys, s.db, s.toHost[0].rows);
    }
  }

  lemma OthersStoreNothing(c: Config, s: State, ev: Event)
    requires !ev.HostReads? && !ev.EnclaveReads?
    ensures var s1 := Apply(c, s, ev); s1.db == s.db && s1.enclave == s.enclave && s1.toHost == s.toHost
  {}

  lemma InvKept(c: Config, s: State, ev: Event)
    requires Inv(s)
    ensures Inv(Apply(c, s, ev))
  {
    TurnKept(c, s, ev);
    ToldKept(c, s, ev);
    if ev.HostReads? {
      RowsKeptByHost(c, s, ev.table, ev.bound);
    } else if !ev.EnclaveReads? {
      OthersStoreNothing(c, s, ev);
    } else if s.toEnclave != [] {
      RowsKeptByEnclave(c, s, ev.nonces);
    }
    hide Turn, Told, KeysInReach, RowsGood, RowsNewer;
  }

  lemma {:induction false} RunInv(c: Config, evs: seq<Event>)
    ensures Inv(Run(c, evs))
  {
    if evs != [] {
      RunInv(c, evs[..|evs| - 1]);
      InvKept(c, Run(c, evs[..|evs| - 1]), evs[|evs| - 1]);
    }
  }

  // ----- whose reply is whose

  /** One read at most empties the enclave's queue, in its loop, without a reply. */
  ghost predicate Settles(c: Config, s: State, nonces: nat -> nat) {
    var s1 := Apply(c, s, EnclaveReads(nonces));
    s1.toEnclave == [] && s1.toHost == [] && !s1.enclave.awaitsAck
  }

  /** Replies never cross: back in its event loop the host has no reply pending and will get
      none, and what it reads inside a handler answers what it asked there. */
  lemma RepliesNeverCross(c: Config, evs: seq<Event>, nonces: nat -> nat)
    ensures var s := Run(c, evs);
      && (s.host == Events ==> s.toHost == [] && Settles(c, s, nonces))
      && (s.host == FmdBlocks && s.toHost != [] ==> s.toHost == [BlockRequests(Nexts(s.enclave.keys))])
      && (s.host == FmdFlags && s.toHost != [] ==> |s.toHost| == 1 && (s.toHost[0].Results? || s.toHost[0].EnclaveError?))
      && (s.host == RegFinal && s.toHost != [] ==> s.toHost == [KeyRegSuccess] || s.toHost == [ErrorForClient])
  {
    RunInv(c, evs);
  }

  /** The host reads the heights its round asked for. */
  predicate Asked(s: State, ev: Event) {
    s.host == FmdBlocks && s.toHost != [] && s.enclave.keys != [] && ev.HostReads?
  }

  /** Since `ev` in `s0` only the exchange of flags and results has gone on. */
  predicate Exchanging(c: Config, s0: State, ev: Event, nonces: nat -> nat, s: State)
    requires ev.HostReads?
  {
    var keys, flags := s0.enclave.keys, Flags(ev.table, Heights(Nexts(s0.enclave.keys)));
    && s.host == FmdFlags && s.db == s0.db && s.told == s0.told && !s.enclave.awaitsAck
    && if s.toHost == [] then
         s.toEnclave == [RequestedFlags(ev.bound, flags)] && s.enclave.keys == keys
       else
         && s.toEnclave == [] && s.enclave.keys == Round(c.d, ev.table, ev.bound, keys)
         && s.toHost == [ReplyMsg(Respond(c.d, c.limit, nonces, ev.bound, flags, keys, |keys|))]
  }

  lemma ExchangeStarts(c: Config, s: State, ev: Event, nonces: nat -> nat)
    requires Turn(s) && Asked(s, ev)
    ensures Exchanging(c, s, ev, nonces, Apply(c, s, ev))
  {
    var nexts := Nexts(s.enclave.keys);
    HeightsFacts(nexts);
    assert nexts[0] in Heights(nexts);
  }

  lemma ExchangeGoesOn(c: Config, s0: State, ev0: Event, nonces: nat -> nat, s: State, ev: Event) returns (nonces': nat -> nat)
    requires ev0.HostReads? && Exchanging(c, s0, ev0, nonces, s) && Apply(c, s, ev).host == FmdFlags
    ensures Exchanging(c, s0, ev0, nonces', Apply(c, s, ev))
  {
    nonces' := if ev.EnclaveReads? && s.toEnclave != [] then ev.nonces else nonces;
  }

  lemma ExchangeBegins(c: Config, s: State, ev: Event)
    requires Turn(s) && s.host != FmdFlags && Apply(c, s, ev).host == FmdFlags
    ensures Asked(s, ev)
  {
    assert Heights([]) == [];
  }

  /** In every reachable state inside an exchange, what is pending is the enclave's reply to the
      very flags the host has read for the heights of this round, made from the keys it had
      then; and the keys have moved by exactly this round. */
  lemma {:induction false} ReplyIsOwn(c: Config, evs: seq<Event>) returns (n: nat, nonces: nat -> nat)
    requires Run(c, evs).host == FmdFlags
    ensures n < |evs| && Asked(Run(c, evs[..n]), evs[n])
    ensures Exchanging(c, Run(c, evs[..n]), evs[n], nonces, Run(c, evs))
  {
    var last := |evs| - 1;
    var s := Run(c, evs[..last]);
    RunInv(c, evs[..last]);
    hide Exchanging, Turn, Told, KeysInReach, RowsGood, RowsNewer;
    if s.host == FmdFlags {
      n, nonces := ReplyIsOwn(c, evs[..last]);
      assert evs[..last][..n] == evs[..n];
      nonces := ExchangeGoesOn(c, Run(c, evs[..n]), evs[n], nonces, s, evs[last]);
    } else {
      n, nonces := last, (_: nat) => 0;
      ExchangeBegins(c, s, evs[last]);
      ExchangeStarts(c, s, evs[last], nonces);
    }
  }

  /** The first two of its three events advance every key on the flags read. */
  lemma ExchangeAdvances(c: Config, s: State, ev: Event, nonces: nat -> nat)
    requires Turn(s) && Asked(s, ev)
    ensures Apply(c, Apply(c, s, ev), EnclaveReads(nonces)).enclave.keys == Round(c.d, ev.table, ev.bound, s.enclave.keys)
  {
    ExchangeStarts(c, s, ev, nonces);
    var nonces' := ExchangeGoesOn(c, s, ev, nonces, Apply(c, s, ev), EnclaveReads(nonces));
    hide Respond, Round, Heights, Flags, Turn;
  }

  /** The three events of an exchange, with nothing else enabled in between, are one round: on
      all keys, answered from the keys before it, and stored. */
  lemma ExchangeIsRound(c: Config, s: State, ev: Event, nonces: nat -> nat, ev': Event)
    requires Turn(s) && Asked(s, ev) && ev'.HostReads?
    ensures var keys, flags := s.enclave.keys, Flags(ev.table, Heights(Nexts(s.enclave.keys)));
      var s1 := Apply(c, s, ev);
      var s2 := Apply(c, s1, EnclaveReads(nonces));
      var s3 := Apply(c, s2, ev');
      var reply := Respond(c.d, c.limit, nonces, ev.bound, flags, keys, |keys|);
      && (forall e: Event | !e.EnclaveReads? :: Apply(c, s1, e) == s1)
      && (forall e: Event | !e.HostReads? :: Apply(c, s2, e) == s2)
      && s3 == State(Events, EnclaveState(false, Round(c.d, ev.table, ev.bound, keys)), [], [],
                     if reply.Error? then s.db else Updated(s.db, reply.rows), s.told)
  {
    ExchangeStarts(c, s, ev, nonces);
    var s1 := Apply(c, s, ev);
    var nonces' := ExchangeGoesOn(c, s, ev, nonces, s1, EnclaveReads(nonces));
    hide Respond, Round, Heights, Flags, Turn;
  }

  /** In its event loop the host has told one client of success per registered key. */
  lemma RegisteredIsTold(c: Config, evs: seq<Event>)
    requires Run(c, evs).host == Events
    ensures Run(c, evs).told == |Run(c, evs).enclave.keys|
  {
    RunInv(c, evs);
  }

  /** Whatever the enclave answers in a registration, an error for the client included, goes to
      the client, and the enclave is sent nothing for it. */
  lemma AnswersReachClient(c: Config, evs: seq<Event>, ev: Event)
    requires ev.HostReads? && Run(c, evs).toHost != []
    requires Run(c, evs).host == RegFirst || Run(c, evs).host == RegFinal
    ensures var s, s1 := Run(c, evs), Apply(c, Run(c, evs), ev);
      && s1.toEnclave == [] && s1.enclave == s.enclave
      && s1.host == if s.host == RegFirst then RegClient else Events
  {
    RunInv(c, evs);
  }

  // ----- which keys are registered

  /** A client that connects to an enclave in its loop is answered with a report, and waited for,
      exactly if its public key is contributory; else with an error.  Others are not let in. */
  lemma ConnectsIff(c: Config, s: State, contributory: bool, nonces: nat -> nat)
    requires s.host == Events && s.toEnclave == [] && s.toHost == [] && !s.enclave.awaitsAck
    ensures var s1 := Apply(c, Apply(c, s, ClientConnects(true, contributory)), EnclaveReads(nonces));
      && s1.host == RegFirst && s1.enclave.keys == s.enclave.keys
      && s1.toHost == (if contributory then [Ratls] else [ErrorForClient]) && s1.enclave.awaitsAck == contributory
    ensures Apply(c, s, ClientConnects(false, contributory)) == s
  {}

  predicate Carries(msg: MsgFromHost) {
    msg.RatlsAck? && msg.ack.Success? && msg.ack.payload.Some?
  }

  /** The block a key asks for first: the one after its birthday, or block 2. */
  function FirstAsked(birthday: Option<nat>): nat {
    if birthday.Some? then birthday.value + 1 else 2
  }

  ghost predicate SameNames(before: seq<Key>, after: seq<Key>) {
    |before| <= |after| && forall i | 0 <= i < |before| ::
      after[i].fmd == before[i].fmd && after[i].enc == before[i].enc && after[i].birthday == before[i].birthday
  }

  lemma AdvanceNames(c: Config)
    ensures forall bound: nat, flags, k: Key :: var k1 := Advance(c.d, bound, flags, k);
      k1.fmd == k.fmd && k1.enc == k.enc && k1.birthday == k.birthday
  {}

  /** A waiting enclave that reads a success it can open adds one key, as it was sent and with an
      empty list; on anything else it adds none, and it waits no longer in either case. */
  lemma RegistersIff(c: Config, e: EnclaveState, msg: MsgFromHost, nonces: nat -> nat)
    ensures var (e1, out) := EnclaveStep(c, e, msg, nonces);
      && SameNames(e.keys, e1.keys)
      && (e1.awaitsAck <==> !e.awaitsAck && msg == RegisterKey(true))
      && if e.awaitsAck && Carries(msg) then
           var reg, k := msg.ack.payload.value, e1.keys[|e1.keys| - 1];
           && |e1.keys| == |e.keys| + 1 && out == [KeyRegSuccess]
           && k.fmd == reg.fmd && k.enc == reg.enc && k.birthday == reg.birthday && k.indices == []
           && Nexts(e1.keys)[|e.keys|] == FirstAsked(reg.birthday)
         else
           |e1.keys| == |e.keys| && out != [KeyRegSuccess]
    ensures var out := EnclaveStep(c, e, msg, nonces).1;
      && |out| <= 1 && (out == [] <==> if e.awaitsAck then msg == RatlsAck(Fail) else msg == Basic || msg.RatlsAck?)
      && (e.awaitsAck ==> (out == [ErrorForClient] <==> msg == RatlsAck(Success(None))))
  {
    hide Respond, Advance;
    AdvanceNames(c);
  }

  function Registrations(keys: seq<Key>): (regs: seq<Registration>)
    ensures |regs| == |keys|
    ensures forall i | 0 <= i < |keys| :: regs[i] == Registration(keys[i].fmd, keys[i].enc, keys[i].birthday)
  {
    seq(|keys|, i requires 0 <= i < |keys| => Registration(keys[i].fmd, keys[i].enc, keys[i].birthday))
  }

  /** A client's success that the enclave is waiting for. */
  predicate Accepts(s: State, ev: Event) {
    ev.ClientAnswers? && s.host == RegClient && s.enclave.awaitsAck
    && ev.answer.Some? && ev.answer.value.Success? && ev.answer.value.payload.Some?
  }

  /** All such registrations of a run, in order. */
  function Accepted(c: Config, evs: seq<Event>): seq<Registration> {
    if evs == [] then []
    else
      var s, ev := Run(c, evs[..|evs| - 1]), evs[|evs| - 1];
      Accepted(c, evs[..|evs| - 1]) + if Accepts(s, ev) then [ev.answer.value.payload.value] else []
  }

  function OnTheWay(s: State): seq<Registration> {
    if s.enclave.awaitsAck && s.toEnclave != [] && Carries(s.toEnclave[0]) then [s.toEnclave[0].ack.payload.value] else []
  }

  lemma ReadOnTheWay(c: Config, s: State, nonces: nat -> nat)
    requires Turn(s) && s.toEnclave != []
    ensures var s1 := Apply(c, s, EnclaveReads(nonces));
      OnTheWay(s1) == [] && s1.enclave == EnclaveStep(c, s.enclave, s.toEnclave[0], nonces).0
  {}

  lemma RegistrationsStep(c: Config, s: State, ev: Event)
    requires Turn(s)
    ensures var s1 := Apply(c, s, ev);
      Registrations(s1.enclave.keys) + OnTheWay(s1) == Registrations(s.enclave.keys) + OnTheWay(s)
        + if Accepts(s, ev) then [ev.answer.value.payload.value] else []
  {
    var s1 := Apply(c, s, ev);
    if ev.EnclaveReads? && s.toEnclave != [] {
      RegistersIff(c, s.enclave, s.toEnclave[0], ev.nonces);
      ReadOnTheWay(c, s, ev.nonces);
      hide Apply, EnclaveStep, Turn;
    } else {
      assert s1.enclave == s.enclave;
    }
  }

  /** In every reachable state the registered keys are, one by one and in order, the accepted
      registrations, but for one that may still be on its way. */
  lemma {:induction false} KeysAreRegistrations(c: Config, evs: seq<Event>)
    ensures Accepted(c, evs) == Registrations(Run(c, evs).enclave.keys) + OnTheWay(Run(c, evs))
  {
    if evs != [] {
      var s, ev := Run(c, evs[..|evs| - 1]), evs[|evs| - 1];
      KeysAreRegistrations(c, evs[..|evs| - 1]);
      RunInv(c, evs[..|evs| - 1]);
      RegistrationsStep(c, s, ev);
    }
  }

  // ----- lists over whole runs

  /** If the event is a round's read for key `i`, it finds the chain's detected rows. */
  ghost predicate ReadRight(c: Config, s: State, ev: Event, i: nat) {
    Asked(s, ev) && i < |s.enclave.keys| ==> RightRead(c.d, c.chain, ev.table, ev.bound, s.enclave.keys[i])
  }

  ghost predicate ReadsRight(c: Config, evs: seq<Event>, i: nat) {
    evs != [] ==> ReadsRight(c, evs[..|evs| - 1], i) && ReadRight(c, Run(c, evs[..|evs| - 1]), evs[|evs| - 1], i)
  }

  /** The list is the one-shot list, of blocks that hold what is theirs. */
  ghost predicate ExactList(c: Config, k: Key) {
    Exact(c.d, c.chain, k) && TrueBlocks(c.d, k.fmd, c.chain, Start(k.birthday), k.syncedTo)
  }

  /** So is the list that the flags on their way will lead to. */
  ghost predicate PendingRight(c: Config, s: State, i: nat)
    requires i < |s.enclave.keys|
  {
    s.toEnclave != [] && s.toEnclave[0].RequestedFlags? ==>
      RightFlags(c.d, c.chain, s.toEnclave[0].bound, s.toEnclave[0].flags, s.enclave.keys[i])
  }

  lemma AdvanceExactList(c: Config, bound: nat, flags: seq<FlagRow>, k: Key)
    requires ExactList(c, k) && RightFlags(c.d, c.chain, bound, flags, k)
    ensures ExactList(c, Advance(c.d, bound, flags, k))
  {
    AdvanceRight(c.d, c.chain, bound, flags, k);
    HitsHeights(c.d, k.fmd, flags, k.syncedTo + 1);
  }

  /** Reading flags advances the keys by them; reading anything else leaves them. */
  lemma EnclaveAdvances(c: Config, s: State, nonces: nat -> nat, i: nat)
    requires Turn(s) && s.toEnclave != [] && i < |s.enclave.keys|
    ensures var s1, msg := Apply(c, s, EnclaveReads(nonces)), s.toEnclave[0];
      && i < |s1.enclave.keys| && PendingRight(c, s1, i)
      && s1.enclave.keys[i] == if msg.RequestedFlags? then Advance(c.d, msg.bound, msg.flags, s.enclave.keys[i]) else s.enclave.keys[i]
  {
    hide Respond, RightFlags, Advance;
  }

  lemma RightEnclave(c: Config, s: State, nonces: nat -> nat, i: nat)
    requires Turn(s) && s.toEnclave != [] && i < |s.enclave.keys| && InReach(s.enclave.keys[i])
    ensures var s1 := Apply(c, s, EnclaveReads(nonces));
      && i < |s1.enclave.keys| && PendingRight(c, s1, i)
      && (ExactList(c, s.enclave.keys[i]) && PendingRight(c, s, i) ==> ExactList(c, s1.enclave.keys[i]))
      && (ProperChain(c.chain) && Exact(c.d, c.chain, s1.enclave.keys[i]) ==>
            Exact(c.d, c.chain, s.enclave.keys[i]) && PendingRight(c, s, i))
  {
    var msg, k := s.toEnclave[0], s.enclave.keys[i];
    EnclaveAdvances(c, s, nonces, i);
    hide Apply, Turn, Exact, ExactList, ProperChain, InReach, RightFlags, Advance;
    if msg.RequestedFlags? {
      if ExactList(c, k) && PendingRight(c, s, i) {
        AdvanceExactList(c, msg.bound, msg.flags, k);
      }
      if ProperChain(c.chain) && Exact(c.d, c.chain, Advance(c.d, msg.bound, msg.flags, k)) {
        InexactStays(c.d, c.chain, msg.bound, msg.flags, k);
        AdvanceRight(c.d, c.chain, msg.bound, msg.flags, k);
      }
    }
  }

  lemma NotAsked(c: Config, s: State, ev: Event)
    requires Turn(s) && !ev.EnclaveReads? && !Asked(s, ev) && s.enclave.keys != []
    ensures var s1 := Apply(c, s, ev);
      s1.enclave == s.enclave && (s1.toEnclave == s.toEnclave
        || (s1.toEnclave != [] && (s.toEnclave == [] ==> !s1.toEnclave[0].RequestedFlags?)
            && (s.toEnclave != [] ==> s1.toEnclave[0] == s.toEnclave[0])))
  {}

  lemma RightHost(c: Config, s: State, ev: Event, i: nat)
    requires Turn(s) && !ev.EnclaveReads? && i < |s.enclave.keys|
    ensures var s1 := Apply(c, s, ev);
      && s1.enclave == s.enclave
      && (PendingRight(c, s1, i) <==> PendingRight(c, s, i) && ReadRight(c, s, ev, i))
  {
    if Asked(s, ev) {
      RightReadIff(c.d, c.chain, ev.table, ev.bound, s.enclave.keys, s.enclave.keys[i]);
      ExchangeStarts(c, s, ev, (_: nat) => 0);
    } else {
      NotAsked(c, s, ev);
    }
  }

  lemma RightNew(c: Config, s: State, ev: Event)
    requires Turn(s) && |Apply(c, s, ev).enclave.keys| != |s.enclave.keys|
    ensures var s1, i := Apply(c, s, ev), |s.enclave.keys|;
      |s1.enclave.keys| == i + 1 && ExactList(c, s1.enclave.keys[i]) && PendingRight(c, s1, i)
  {
    var k := Apply(c, s, ev).enclave.keys[|s.enclave.keys|];
    OneShotEmpty(c.d, k.fmd, c.chain, Start(k.birthday));
  }

  lemma RightStep(c: Config, s: State, ev: Event, i: nat)
    requires Turn(s) && KeysInReach(s.enclave.keys)
    ensures var s1 := Apply(c, s, ev);
      if i < |s.enclave.keys| then
        && i < |s1.enclave.keys|
        && (ExactList(c, s.enclave.keys[i]) && PendingRight(c, s, i) && ReadRight(c, s, ev, i) ==>
              ExactList(c, s1.enclave.keys[i]) && PendingRight(c, s1, i))
        && (ProperChain(c.chain) && Exact(c.d, c.chain, s1.enclave.keys[i]) && PendingRight(c, s1, i) ==>
              Exact(c.d, c.chain, s.enclave.keys[i]) && PendingRight(c, s, i) && ReadRight(c, s, ev, i))
      else
        && ReadRight(c, s, ev, i)
        && (i < |s1.enclave.keys| ==> ExactList(c, s1.enclave.keys[i]) && PendingRight(c, s1, i))
  {
    hide ExactList, Exact, PendingRight, ProperChain, RightRead;
    if i < |s.enclave.keys| {
      assert s.enclave.keys[i] in s.enclave.keys;
      if !ev.EnclaveReads? {
        RightHost(c, s, ev, i);
      } else if s.toEnclave != [] {
        RightEnclave(c, s, ev.nonces, i);
      }
    } else if |Apply(c, s, ev).enclave.keys| != |s.enclave.keys| {
      RightNew(c, s, ev);
    }
  }

  /** After every run a key's list, and the flags on their way, are right if all reads for the
      key were; on a proper chain also only then. */
  lemma {:induction false} RunRight(c: Config, evs: seq<Event>, i: nat)
    ensures var s := Run(c, evs);
      if i < |s.enclave.keys| then
        && (ReadsRight(c, evs, i) ==> ExactList(c, s.enclave.keys[i]) && PendingRight(c, s, i))
        && (ProperChain(c.chain) && Exact(c.d, c.chain, s.enclave.keys[i]) && PendingRight(c, s, i) ==> ReadsRight(c, evs, i))
      else ReadsRight(c, evs, i)
  {
    if evs != [] {
      var s, ev := Run(c, evs[..|evs| - 1]), evs[|evs| - 1];
      RunRight(c, evs[..|evs| - 1], i);
      RunInv(c, evs[..|evs| - 1]);
      hide Apply, Turn, Told, RowsGood, RowsNewer, ExactList, Exact, PendingRight, ProperChain, RightRead;
      RightStep(c, s, ev, i);
    }
  }

  /** A key's list is the chain filtered once from its birthday on if, round by round, the
      detected rows the host found for the key's next block were the chain's; on a proper chain
      it is then in height order and lists nothing twice. */
  lemma ListsAreOneShot(c: Config, evs: seq<Event>, i: nat)
    requires i < |Run(c, evs).enclave.keys| && ReadsRight(c, evs, i)
    ensures var k := Run(c, evs).enclave.keys[i];
      && Start(k.birthday) <= k.syncedTo
      && k.indices == OneShot(c.d, k.fmd, c.chain, Start(k.birthday), k.syncedTo)
      && (ProperChain(c.chain) ==> InOrderWithin(k.indices, Start(k.birthday), k.syncedTo))
  {
    RunRight(c, evs, i);
    if ProperChain(c.chain) {
      ExactInOrder(c.d, c.chain, Run(c, evs).enclave.keys[i]);
    }
  }

  /** The list spelled out: a transaction is in it exactly if it is on chain after the birthday
      (after block 1 without one) and up to the synced height, and its flag is missing or
      matches; by height, then in the order of the block's rows, and none twice. */
  lemma ListLaw(c: Config, evs: seq<Event>, i: nat)
    requires i < |Run(c, evs).enclave.keys| && ReadsRight(c, evs, i) && ProperChain(c.chain)
    ensures var k := Run(c, evs).enclave.keys[i];
      var after := if k.birthday.Some? then k.birthday.value else 1;
      && (forall x :: x in k.indices <==> after < x.height <= k.syncedTo && Relevant(c.d, k.fmd, c.chain, x))
      && InOrderWithin(k.indices, after, k.syncedTo) && RowOrder(k.indices, c.chain)
  {
    ListsAreOneShot(c, evs, i);
    var k := Run(c, evs).enclave.keys[i];
    hide Run, OneShot, ReadsRight, ProperChain;
    OneShotLaw(c.d, k.fmd, c.chain, Start(k.birthday), k.syncedTo);
  }

  lemma NoFlagsOutside(s: State)
    requires Turn(s) && s.host != FmdFlags
    ensures s.toEnclave != [] ==> !s.toEnclave[0].RequestedFlags?
  {}

  /** And only if: on a proper chain one wrong read spoils the list for good. */
  lemma ListsAreOneShotIff(c: Config, evs: seq<Event>, i: nat)
    requires ProperChain(c.chain) && i < |Run(c, evs).enclave.keys| && Run(c, evs).host != FmdFlags
    ensures var k := Run(c, evs).enclave.keys[i];
      k.indices == OneShot(c.d, k.fmd, c.chain, Start(k.birthday), k.syncedTo) <==> ReadsRight(c, evs, i)
  {
    RunRight(c, evs, i);
    RunInv(c, evs);
    assert Run(c, evs).enclave.keys[i] in Run(c, evs).enclave.keys;
    NoFlagsOutside(Run(c, evs));
    hide Turn, OneShot, ReadsRight, ProperChain, TrueBlocks;
  }

  /** Key `i` has passed the height of `x` without listing it. */
  predicate Missed(keys: seq<Key>, i: nat, x: Index) {
    i < |keys| && x !in keys[i].indices && x.height <= keys[i].syncedTo
  }

  lemma MissedStays(c: Config, before: seq<Key>, after: seq<Key>, i: nat, x: Index)
    requires Missed(before, i, x) && KeysMove(c, before, after)
    ensures Missed(after, i, x) && after[i].fmd == before[i].fmd && after[i].birthday == before[i].birthday
  {
    if bound, flags :| after == AdvanceAll(c.d, bound, flags, before) {
      HitsHeights(c.d, before[i].fmd, flags, before[i].syncedTo + 1);
    }
  }

  /** What a key has passed without listing it is never listed, whatever happens. */
  lemma {:induction false} MissedForever(c: Config, s: State, evs: seq<Event>, i: nat, x: Index)
    requires Missed(s.enclave.keys, i, x)
    ensures var keys := RunFrom(c, s, evs).enclave.keys;
      && Missed(keys, i, x)
      && keys[i].fmd == s.enclave.keys[i].fmd && keys[i].birthday == s.enclave.keys[i].birthday
  {
    if evs != [] {
      var before := RunFrom(c, s, evs[..|evs| - 1]);
      MissedForever(c, s, evs[..|evs| - 1], i, x);
      EventMoves(c, before, evs[|evs| - 1]);
      hide Apply, KeysMove;
      MissedStays(c, before.enclave.keys, RunFrom(c, s, evs).enclave.keys, i, x);
    }
  }

  /** A detected row of a passed block that is not listed spoils the list for good. */
  lemma NeverExactAgain(c: Config, s: State, evs: seq<Event>, i: nat, row: FlagRow)
    requires i < |s.enclave.keys|
    requires var k := s.enclave.keys[i];
      && Start(k.birthday) < row.ix.height <= k.syncedTo && row in c.chain(row.ix.height)
      && Detected(c.d, k.fmd, row) && row.ix !in k.indices
    ensures var keys := RunFrom(c, s, evs).enclave.keys; i < |keys| && !Exact(c.d, c.chain, keys[i])
  {
    MissedForever(c, s, evs, i, row.ix);
    var k := RunFrom(c, s, evs).enclave.keys[i];
    OneShotHas(c.d, k.fmd, c.chain, Start(k.birthday), k.syncedTo, row.ix.height, row);
  }

  lemma Then(c: Config, evs: seq<Event>, ev: Event) returns (evs': seq<Event>)
    ensures evs' == evs + [ev] && Run(c, evs') == Apply(c, Run(c, evs), ev)
  {
    evs' := evs + [ev];
    assert evs'[..|evs|] == evs;
  }

  // ----- stored rows over whole runs

  lemma RunStores(c: Config, evs: seq<Event>, o: nat) returns (i: nat)
    requires o in Run(c, evs).db
    ensures i < |Run(c, evs).enclave.keys| && RowHolds(Run(c, evs).enclave.keys[i], Run(c, evs).db[o])
    ensures Run(c, evs).db[o].owner == o
  {
    RunInv(c, evs);
    var s := Run(c, evs);
    assert OwnRow(s.enclave.keys, o, s.db[o]);
    i :| 0 <= i < |s.enclave.keys| && RowHolds(s.enclave.keys[i], s.db[o]);
  }

  lemma HeldBounds(k: Key, row: Encrypted)
    requires RowHolds(k, row)
    ensures row.owner == k.enc && Start(k.birthday) <= row.height < k.syncedTo
  {}

  lemma RowIsOneShot(c: Config, k: Key, row: Encrypted)
    requires RowHolds(k, row) && ExactList(c, k)
    ensures Query(k.enc, row) == Some(OneShot(c.d, k.fmd, c.chain, Start(k.birthday), row.height + 1))
  {
    hide Query, ListTo, TrueBlocks, OneShot;
    QueryHolds(k, row);
    OneShotCut(c.d, k.fmd, c.chain, Start(k.birthday), row.height + 1, k.syncedTo);
  }

  /** Whatever was read and registered, what a client reads back under its owner name is the list
      of a key with that name as it was one block after the height reported with it; it is the
      one-shot list up to there if the reads for that key were right. */
  lemma QueriesAreOneShot(c: Config, evs: seq<Event>, o: nat) returns (i: nat)
    requires o in Run(c, evs).db
    ensures var row, keys := Run(c, evs).db[o], Run(c, evs).enclave.keys;
      && i < |keys| && keys[i].enc == o && Start(keys[i].birthday) <= row.height < keys[i].syncedTo
      && Query(o, row) == Some(ListTo(keys[i].indices, row.height + 1))
      && (forall key: nat | key != o :: Query(key, row) == None)
      && (ReadsRight(c, evs, i) ==>
            Query(o, row) == Some(OneShot(c.d, keys[i].fmd, c.chain, Start(keys[i].birthday), row.height + 1)))
  {
    i := RunStores(c, evs, o);
    RunRight(c, evs, i);
    var k, row := Run(c, evs).enclave.keys[i], Run(c, evs).db[o];
    hide Run, Query, ReadsRight, PendingRight, ExactList, ListTo, OneShot;
    QueryHolds(k, row);
    HeldBounds(k, row);
    if ReadsRight(c, evs, i) { RowIsOneShot(c, k, row); }
    hide RowHolds;
  }

  /** With distinct owners a stored row is only ever replaced by one of a greater height. */
  lemma StoredHeightsGrow(c: Config, evs: seq<Event>, ev: Event, o: nat)
    requires DistinctOwners(Run(c, evs).enclave.keys) && o in Run(c, evs).db
    ensures var db, db' := Run(c, evs).db, Apply(c, Run(c, evs), ev).db;
      o in db' && (db'[o] == db[o] || db[o].height < db'[o].height)
  {
    RunInv(c, evs);
    if ev.HostReads? {
      RowsKeptByHost(c, Run(c, evs), ev.table, ev.bound);
    } else if !ev.EnclaveReads? {
      OthersStoreNothing(c, Run(c, evs), ev);
    }
    hide Turn, DbGood;
  }

  lemma ExchangeStores(c: Config, s0: State, ev0: Event, nonces: nat -> nat, s: State, ev: Event, i: nat)
    requires ev0.HostReads? && Exchanging(c, s0, ev0, nonces, s) && ResultsPending(s) && ev.HostReads?
    requires DistinctOwners(s.enclave.keys) && i < |s.enclave.keys|
    ensures |s0.enclave.keys| == |s.enclave.keys|
    ensures var k0, k, db' := s0.enclave.keys[i], s.enclave.keys[i], Apply(c, s, ev).db;
      if k0.syncedTo < ev0.bound then
        && k.syncedTo == k0.syncedTo + 1
        && k.enc in db' && db'[k.enc].height + 1 == k.syncedTo && Query(k.enc, db'[k.enc]) == Some(k.indices)
      else
        k == k0 && (k.enc in db' <==> k.enc in s.db) && (k.enc in s.db ==> db'[k.enc] == s.db[k.enc])
  {
    var flags := Flags(ev0.table, Heights(Nexts(s0.enclave.keys)));
    forall j, l | 0 <= j < l < |s0.enclave.keys|
      ensures s0.enclave.keys[j].enc != s0.enclave.keys[l].enc
    {
      assert s.enclave.keys[j].enc != s.enclave.keys[l].enc;
    }
    RoundStoresRows(c.d, c.limit, nonces, ev0.bound, flags, s0.enclave.keys, s.db, i);
    hide Respond, DistinctOwners, Flags, Heights, Query;
  }

  /** When a round's results are stored, then with distinct owners the row of every key that the
      round has advanced opens to the key's current list, at the height below its synced one,
      which is its one-shot list if the reads for it were right; other rows are as before. */
  lemma FinishedRoundStores(c: Config, evs: seq<Event>, ev: Event, i: nat) returns (n: nat)
    requires Run(c, evs).host == FmdFlags && ResultsPending(Run(c, evs)) && ev.HostReads?
    requires DistinctOwners(Run(c, evs).enclave.keys) && i < |Run(c, evs).enclave.keys|
    ensures n < |evs| && Asked(Run(c, evs[..n]), evs[n]) && |Run(c, evs[..n]).enclave.keys| == |Run(c, evs).enclave.keys|
    ensures var k0, k := Run(c, evs[..n]).enclave.keys[i], Run(c, evs).enclave.keys[i];
      var db, db', o := Run(c, evs).db, Apply(c, Run(c, evs), ev).db, k.enc;
      if k0.syncedTo < evs[n].bound then
        && k.syncedTo == k0.syncedTo + 1
        && o in db' && db'[o].height + 1 == k.syncedTo && Query(o, db'[o]) == Some(k.indices)
        && (ReadsRight(c, evs, i) ==>
              Query(o, db'[o]) == Some(OneShot(c.d, k.fmd, c.chain, Start(k.birthday), k.syncedTo)))
      else
        k == k0 && (o in db' <==> o in db) && (o in db ==> db'[o] == db[o])
  {
    var nonces: nat -> nat;
    n, nonces := ReplyIsOwn(c, evs);
    RunRight(c, evs, i);
    ExchangeStores(c, Run(c, evs[..n]), evs[n], nonces, Run(c, evs), ev, i);
    hide Run, Apply, Exchanging, ReadsRight, DistinctOwners, Query, PendingRight;
  }

  /** When the host passes on a client's acknowledgement, the reply it then waits for comes
      exactly if the enclave is waiting too and the acknowledgement is a success; otherwise
      nothing ever happens again. */
  lemma FinalReplyIff(c: Config, evs: seq<Event>, ack: AckType, nonces: nat -> nat)
    requires Run(c, evs).host == RegClient
    ensures var s := Apply(c, Apply(c, Run(c, evs), ClientAnswers(Some(ack))), EnclaveReads(nonces));
      && (s.toHost != [] <==> Run(c, evs).enclave.awaitsAck && ack.Success?)
      && (s.toHost == [] ==> forall ev :: Apply(c, s, ev) == s)
  {
    RunInv(c, evs);
  }

  /** The enclave's loop as an object. */
  class EnclaveLoop {
    const enclave: Enclave
    var awaitsAck: bool

    constructor ()
      ensures enclave.keys == [] && !awaitsAck && fresh(enclave)
    {
      enclave := new Enclave();
      awaitsAck := false;
    }

    method Serve(c: Config, msg: MsgFromHost, nonces: nat -> nat) returns (out: seq<MsgToHost>)
      modifies this, enclave
      ensures (EnclaveState(awaitsAck, enclave.keys), out)
           == EnclaveStep(c, EnclaveState(old(awaitsAck), old(enclave.keys)), msg, nonces)
      ensures if old(awaitsAck) && Carries(msg) then
                var reg, n := msg.ack.payload.value, |old(enclave.keys)|;
                && |enclave.keys| == n + 1 && enclave.keys[..n] == old(enclave.keys) && out == [KeyRegSuccess]
                && enclave.keys[n].fmd == reg.fmd && enclave.keys[n].enc == reg.enc && enclave.keys[n].birthday == reg.birthday
                && enclave.keys[n].indices == [] && enclave.keys[n].syncedTo + 1 == FirstAsked(reg.birthday)
              else
                |enclave.keys| == |old(enclave.keys)|
    {
      if awaitsAck {
        awaitsAck := false;
        match msg {
          case RatlsAck(Success(Some(reg))) =>
            enclave.Register(reg.fmd, reg.enc, reg.birthday);
            assert enclave.keys == old(enclave.keys) + [NewKey(reg.fmd, reg.enc, reg.birthday)];
            out := [KeyRegSuccess];
          case RatlsAck(Success(None)) => out := [ErrorForClient];
          case RatlsAck(Fail) => out := [];
          case _ => out := [EnclaveError];
        }
        return;
      }
      match msg {
        case RegisterKey(contributory) =>
          awaitsAck := contributory;
          out := if contributory then [Ratls] else [ErrorForClient];
        case RequestReport => out := [Report];
        case RequiredBlocks => out := [BlockRequests(Nexts(enclave.keys))];
        case RequestedFlags(bound, flags) =>
          var response := enclave.CheckFlags(c.d, c.limit, nonces, bound, flags);
          out := [ReplyMsg(response)];
        case _ => out := [];
      }
    }
  }
}
