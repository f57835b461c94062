/** The trade analyser as the program runs it: an object whose methods update its
    fields in place and write to two stores, the SQL session and the alert table.
    Every method is proved to move the abstract state exactly as the matching
    function of module Ingest does, so what module IngestProperties proves about
    those functions, one call or any sequence of calls, holds of the object; the
    public methods also keep the invariant. */
module Analysis {
  import opened Records
  import opened Ingest
  import opened IngestProperties

  /** The SQL session the analyser writes trades through. */
  class TradeSession {
    var rows: seq<TradeRecord>
    var committed: nat
    var bulkInserts: nat
    var symbolLookups: seq<string>

    ghost function Model(): Session
      reads this
    {
      Session(rows, committed, bulkInserts, symbolLookups)
    }

    constructor (m: Session)
      ensures Model() == m
    {
      rows := m.rows;
      committed := m.committed;
      bulkInserts := m.bulkInserts;
      symbolLookups := m.symbolLookups;
    }

    /** One bulk insert of the given mappings, appended after the stored rows. */
    method BulkInsertMappings(recs: seq<TradeRecord>)
      modifies this
      ensures Model() == old(Model()).(rows := old(rows) + recs, bulkInserts := old(bulkInserts) + 1)
    {
      rows := rows + recs;
      bulkInserts := bulkInserts + 1;
    }

    /** Commit: every row handed over becomes durable. */
    method Commit()
      modifies this
      ensures Model() == old(Model()).(committed := |old(rows)|)
    {
      committed := |rows|;
    }

    /** The symbol table's get-or-create for `name`; only the call is recorded. */
    method GetOrCreateSymbol(name: string)
      modifies this
      ensures Model() == old(Model()).(symbolLookups := old(symbolLookups) + [name])
    {
      symbolLookups := symbolLookups + [name];
    }
  }

  /** The alert table: the `trade_pk` of each alert, in insertion order. */
  class AlertTable {
    var alerts: seq<int>

    constructor (alerts: seq<int>)
      ensures this.alerts == alerts
    {
      this.alerts := alerts;
    }

    method Insert(tradePk: int)
      modifies this
      ensures alerts == old(alerts) + [tradePk]
    {
      alerts := alerts + [tradePk];
    }
  }

  class TradesAnalyser {
    var symbols: seq<string>
    var tradesObjs: seq<TradeRecord>
    var tradecount: nat
    var tradeacc: nat
    var anomalies: nat
    var tradeaccLimit: int
    var currentPk: int
    const session: TradeSession
    const alertTable: AlertTable

    ghost function State(): Analyser
      reads this, session, alertTable
    {
      Analyser(symbols, tradesObjs, tradecount, tradeacc, anomalies, tradeaccLimit,
               currentPk, session.Model(), alertTable.alerts)
    }

    /** The invariant of the reference state machine holds. */
    ghost predicate Valid()
      reads this, session, alertTable
    {
      Inv(State())
    }

    /** `__init__`: the identity counter starts at the highest stored identity, 0 when
        the store holds no trade. */
    constructor (session: TradeSession, alertTable: AlertTable, tradeaccLimit: int)
      ensures this.session == session && this.alertTable == alertTable
      ensures State() == Init(session.Model(), alertTable.alerts, tradeaccLimit)
      ensures Valid()
    {
      symbols := [];
      tradesObjs := [];
      tradecount := 0;
      tradeacc := 0;
      anomalies := 0;
      this.tradeaccLimit := tradeaccLimit;
      currentPk := HighestId(session.rows);
      this.session := session;
      this.alertTable := alertTable;
    }

    /** `add`: buffer the trade under the next identity, bulk-save at the limit, and
        flag the trade when the anomaly finder's verdict says so. */
    method Add(t: Trade, commit: bool, anomalous: bool)
      requires Valid()
      modifies this, session, alertTable
      ensures State() == Ingest.Add(old(State()), t, commit, anomalous)
      ensures Valid()
    {
      ghost var a := State();
      var trade := BufferTrade(t);
      SaveAtLimit(commit);
      if anomalous {
        anomalies := anomalies + 1;
        Flag(trade);
      }
      AddPreservesInv(a, t, commit, anomalous);
    }

    /** The first part of `add`: the next identity, the symbol, and the new unflagged
        mapping appended to the buffer, with both counters bumped. */
    method BufferTrade(t: Trade) returns (trade: TradeRecord)
      modifies this, session
      ensures trade == NewRecord(old(currentPk) + 1, t)
      ensures State() == Append(old(State()), t)
    {
      currentPk := currentPk + 1;
      var symbolName := GetSymbol(t.symbol);
      trade := TradeRecord(currentPk, t.price, t.size, symbolName, false);
      tradesObjs := tradesObjs + [trade];
      tradecount := tradecount + 1;
      tradeacc := tradeacc + 1;
    }

    /** The threshold block of `add`: at the limit, bulk-save and then commit when
        the caller asked for it, or else only flush. */
    method SaveAtLimit(commit: bool)
      modifies this, session
      ensures State() == Ingest.SaveAtLimit(old(State()), commit)
    {
      if tradeacc == tradeaccLimit {
        SaveLoad();
        if commit {
          session.Commit();
        } else {
          // a flush stages the insert without committing it
        }
      }
    }

    /** `force_commit`: bulk save, then commit. */
    method ForceCommit()
      modifies this, session
      ensures State() == Ingest.ForceCommit(old(State()))
      ensures old(Valid()) ==> Valid()
    {
      SaveLoad();
      session.Commit();
    }

    /** `save_load`: one bulk insert of the buffer when it is not empty, then reset
        the buffer and its counter. */
    method SaveLoad()
      modifies this, session
      ensures State() == Ingest.SaveLoad(old(State()))
      ensures old(Valid()) ==> Valid()
    {
      if |tradesObjs| > 0 {
        session.BulkInsertMappings(tradesObjs);
      }
      tradesObjs := [];
      tradeacc := 0;
    }

    /** `get_symbol`: returns the name, calling get-or-create and caching the name
        only when it is not cached. */
    method GetSymbol(s: string) returns (name: string)
      modifies this, session
      ensures name == s
      ensures State() == Ingest.GetSymbol(old(State()), s)
      ensures old(Valid()) ==> Valid()
    {
      assert NoDup(symbols) && s !in symbols ==> NoDup(symbols + [s]);
      if s !in symbols {
        session.GetOrCreateSymbol(s);
        symbols := symbols + [s];
      }
      name := s;
    }

    /** `flag`: set the flag on the trade's mapping where it is still buffered, force
        a commit, then insert one alert carrying the trade's identity. */
    method Flag(trade: TradeRecord)
      modifies this, session, alertTable
      ensures State() == Ingest.Flag(old(State()), trade)
      ensures old(Valid()) ==> Valid()
    {
      tradesObjs := MarkFlagged(tradesObjs, trade.id);
      ForceCommit();
      alertTable.Insert(trade.id);
    }
  }
}
