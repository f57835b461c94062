/** Reference definition of the trade analyser as a state machine over values:
    one function per operation of `TradesAnalyser`, each giving the state after the
    operation from the state before it.  The class in module Analysis is proved to
    follow these functions step by step; module IngestProperties proves what the
    functions promise. */
module Ingest {
  import opened Records

  /** The primary store as the analyser's session sees it. */
  datatype Session = Session(
    rows: seq<TradeRecord>,      // trade rows handed to the store, in insertion order
    committed: nat,              // length of the prefix of `rows` made durable by a commit
    bulkInserts: nat,            // bulk-insert round trips issued so far
    symbolLookups: seq<string>)  // names passed to the symbol get-or-create call, in order

  /** The analyser's fields, together with the two stores it writes to. */
  datatype Analyser = Analyser(
    symbols: seq<string>,        // symbol names cached in memory
    tradesObjs: seq<TradeRecord>, // rows buffered for the next bulk insert
    tradecount: nat,
    tradeacc: nat,               // rows added since the last bulk save
    anomalies: nat,
    tradeaccLimit: int,
    currentPk: int,              // identity of the last trade added
    db: Session,
    alerts: seq<int>)            // the `trade_pk` of each alert in the alert store

  /** One call of `add`: the trade, the caller's `commit` flag and the verdict the
      anomaly finder gives on the trade. */
  datatype Event = Event(trade: Trade, commit: bool, anomalous: bool)

  /** The invariant every operation keeps: the buffer and its counter agree, the
      buffer stays below a positive limit, the buffered rows carry the identities
      just before and up to `currentPk`, and the symbol cache holds no name twice. */
  ghost predicate Inv(a: Analyser)
  {
    |a.tradesObjs| == a.tradeacc
    && (a.tradeaccLimit >= 1 ==> a.tradeacc < a.tradeaccLimit)
    && NoDup(a.symbols)
    && (forall i :: 0 <= i < |a.tradesObjs| ==>
          a.tradesObjs[i].id == a.currentPk - |a.tradesObjs| + 1 + i)
  }

  /** `__init__`: empty cache and buffer, zero counters, and the identity counter
      seeded from the highest identity already in the store. */
  function Init(db: Session, alerts: seq<int>, tradeaccLimit: int): (a: Analyser)
    ensures Inv(a)
    ensures a.tradesObjs == [] && a.symbols == []
    ensures a.tradecount == 0 && a.tradeacc == 0 && a.anomalies == 0
    ensures a.db == db && a.alerts == alerts && a.tradeaccLimit == tradeaccLimit
    ensures a.currentPk == HighestId(db.rows)
  {
    Analyser([], [], 0, 0, 0, tradeaccLimit, HighestId(db.rows), db, alerts)
  }

  /** `get_symbol`: the store's get-or-create is called, and the name cached, only
      for a name not already cached. */
  function GetSymbol(a: Analyser, s: string): (b: Analyser)
    ensures s in b.symbols
    ensures s in a.symbols ==> b == a
    ensures s !in a.symbols ==>
      b == a.(symbols := a.symbols + [s], db := a.db.(symbolLookups := a.db.symbolLookups + [s]))
  {
    if s in a.symbols then a
    else a.(symbols := a.symbols + [s], db := a.db.(symbolLookups := a.db.symbolLookups + [s]))
  }

  /** `save_load`: the whole buffer goes, in order, to the end of the stored rows in
      one bulk insert (none when it is empty); buffer and counter are reset. */
  function SaveLoad(a: Analyser): (b: Analyser)
    ensures b.db.rows == a.db.rows + a.tradesObjs
    ensures b.tradesObjs == [] && b.tradeacc == 0
    ensures b.db.bulkInserts == a.db.bulkInserts + (if a.tradesObjs == [] then 0 else 1)
    ensures a.tradesObjs == [] ==> b.db == a.db
    ensures b == a.(tradesObjs := [], tradeacc := 0, db := b.db)
    ensures b.db == a.db.(rows := b.db.rows, bulkInserts := b.db.bulkInserts)
  {
    var db := if |a.tradesObjs| > 0
              then a.db.(rows := a.db.rows + a.tradesObjs, bulkInserts := a.db.bulkInserts + 1)
              else a.db;
    a.(db := db, tradesObjs := [], tradeacc := 0)
  }

  /** The session commit: every row handed to the store becomes durable. */
  function Commit(a: Analyser): (b: Analyser)
    ensures b.db.committed == |b.db.rows|
    ensures b == a.(db := b.db) && b.db == a.db.(committed := b.db.committed)
  {
    a.(db := a.db.(committed := |a.db.rows|))
  }

  /** `force_commit`: bulk save, then commit. */
  function ForceCommit(a: Analyser): (b: Analyser)
    ensures b.db.rows == a.db.rows + a.tradesObjs && b.db.committed == |b.db.rows|
    ensures b.tradesObjs == [] && b.tradeacc == 0
    ensures b.db.bulkInserts == a.db.bulkInserts + (if a.tradesObjs == [] then 0 else 1)
    ensures b == a.(tradesObjs := [], tradeacc := 0, db := b.db)
    ensures b.db == a.db.(rows := b.db.rows, committed := b.db.committed, bulkInserts := b.db.bulkInserts)
  {
    Commit(SaveLoad(a))
  }

  /** `flag`: set the flag of the trade's mapping (visible only if it is still
      buffered), force a commit, then write one alert carrying the trade's id. */
  function Flag(a: Analyser, trade: TradeRecord): (b: Analyser)
    ensures b.db.rows == a.db.rows + MarkFlagged(a.tradesObjs, trade.id)
    ensures b.db.committed == |b.db.rows|
    ensures b.tradesObjs == [] && b.tradeacc == 0
    ensures b.alerts == a.alerts + [trade.id]
    ensures b.db.bulkInserts == a.db.bulkInserts + (if a.tradesObjs == [] then 0 else 1)
    ensures b == a.(tradesObjs := [], tradeacc := 0, db := b.db, alerts := b.alerts)
    ensures b.db == a.db.(rows := b.db.rows, committed := b.db.committed, bulkInserts := b.db.bulkInserts)
  {
    var c := ForceCommit(a.(tradesObjs := MarkFlagged(a.tradesObjs, trade.id)));
    c.(alerts := c.alerts + [trade.id])
  }

  /** The first part of `add`: allocate the next identity, resolve the symbol,
      buffer the new unflagged row and bump both counters. */
  function Append(a: Analyser, t: Trade): Analyser
  {
    var pk := a.currentPk + 1;
    var a1 := GetSymbol(a.(currentPk := pk), t.symbol);
    a1.(tradesObjs := a1.tradesObjs + [NewRecord(pk, t)],
        tradecount := a1.tradecount + 1,
        tradeacc := a1.tradeacc + 1)
  }

  /** The threshold block of `add`: bulk-save when the counter equals the limit,
      then commit if the caller asked for it, and otherwise only flush the session,
      which stages the insert without committing it. */
  function SaveAtLimit(a: Analyser, commit: bool): Analyser
  {
    if a.tradeacc == a.tradeaccLimit then
      var s := SaveLoad(a);
      if commit then Commit(s) else s
    else a
  }

  /** `add`: the two parts above, and only then the anomaly check, which counts the
      anomaly and flags the trade's mapping. */
  function Add(a: Analyser, t: Trade, commit: bool, anomalous: bool): (b: Analyser)
    ensures b.currentPk == a.currentPk + 1 && b.tradecount == a.tradecount + 1
    ensures b.anomalies == a.anomalies + (if anomalous then 1 else 0)
    ensures b.alerts == a.alerts + (if anomalous then [a.currentPk + 1] else [])
    ensures b.symbols == a.symbols + (if t.symbol in a.symbols then [] else [t.symbol])
    ensures b.db.symbolLookups == a.db.symbolLookups + (if t.symbol in a.symbols then [] else [t.symbol])
    ensures b.tradeaccLimit == a.tradeaccLimit
  {
    var a3 := SaveAtLimit(Append(a, t), commit);
    if anomalous then Flag(a3.(anomalies := a3.anomalies + 1), NewRecord(a.currentPk + 1, t)) else a3
  }

  /** `add` with the anomaly check moved before the threshold block: the flag is
      set while the trade's mapping is still buffered, so the bulk insert that
      stores the row always stores it flagged.  `Add` keeps the order of the
      program. */
  function AddFlagFirst(a: Analyser, t: Trade, commit: bool, anomalous: bool): Analyser
  {
    var a2 := Append(a, t);
    var a3 := if anomalous then Flag(a2.(anomalies := a2.anomalies + 1), NewRecord(a.currentPk + 1, t)) else a2;
    SaveAtLimit(a3, commit)
  }

  /** The state after a sequence of `add` calls, in order. */
  function Run(a: Analyser, evs: seq<Event>): Analyser
    decreases |evs|
  {
    if evs == [] then a
    else
      var e := evs[|evs| - 1];
      Add(Run(a, evs[..|evs| - 1]), e.trade, e.commit, e.anomalous)
  }
}
