/** What the trade analyser promises, proved about the reference functions of
    module Ingest: first one `add` at a time, then for any sequence of them, through
    a history invariant that explains the state by the calls made so far. */
module IngestProperties {
  import opened Records
  import opened Ingest

  /** Everything handed over so far: the stored rows followed by the buffer. */
  ghost function Handed(a: Analyser): seq<TradeRecord>
  {
    a.db.rows + a.tradesObjs
  }

  /** `s` with every flag cleared. */
  function Unflagged(s: seq<TradeRecord>): seq<TradeRecord>
  {
    seq(|s|, i requires 0 <= i < |s| => s[i].(flagged := false))
  }

  /** The rows, as built, that the calls `evs` create when the identity counter
      starts at `pk`. */
  function Created(pk: int, evs: seq<Event>): seq<TradeRecord>
    decreases |evs|
  {
    if evs == [] then []
    else Created(pk, evs[..|evs| - 1]) + [NewRecord(pk + |evs|, evs[|evs| - 1].trade)]
  }

  /** Only rows whose trade was judged anomalous carry a flag. */
  ghost predicate FlagsFollow(s: seq<TradeRecord>, evs: seq<Event>)
  {
    |s| == |evs| && forall i :: 0 <= i < |s| && s[i].flagged ==> evs[i].anomalous
  }

  /** The identities the alerts of the calls `evs` carry, in order, when the
      identity counter starts at `pk`. */
  function AnomalousIds(pk: int, evs: seq<Event>): seq<int>
    decreases |evs|
  {
    if evs == [] then []
    else
      AnomalousIds(pk, evs[..|evs| - 1])
      + (if evs[|evs| - 1].anomalous then [pk + |evs|] else [])
  }

  /** The symbol names of the trades of the calls `evs`. */
  ghost function SymbolsOf(evs: seq<Event>): set<string>
  {
    set i | 0 <= i < |evs| :: evs[i].trade.symbol
  }

  // ---------------------------------------------------------------------------
  // The reference sequences
  // ---------------------------------------------------------------------------

  /** The i-th created row is the i-th trade's row under identity `pk + 1 + i`:
      identities are consecutive, with no gap and no repeat, in call order. */
  lemma {:induction false} CreatedAt(pk: int, evs: seq<Event>)
    ensures |Created(pk, evs)| == |evs|
    ensures forall i :: 0 <= i < |evs| ==> Created(pk, evs)[i] == NewRecord(pk + 1 + i, evs[i].trade)
    decreases |evs|
  {
    if evs != [] {
      var pre := evs[..|evs| - 1];
      CreatedAt(pk, pre);
      assert forall i :: 0 <= i < |pre| ==> pre[i] == evs[i];
    }
  }

  /** The alert identities are exactly the identities of the anomalous calls, each
      once, in increasing order, all above the starting counter. */
  lemma {:induction false} AnomalousIdsExact(pk: int, evs: seq<Event>)
    ensures var r := AnomalousIds(pk, evs);
      |r| <= |evs|
      && (forall x :: x in r <==> exists i :: 0 <= i < |evs| && evs[i].anomalous && x == pk + 1 + i)
      && (forall i, j :: 0 <= i < j < |r| ==> r[i] < r[j])
      && (forall i :: 0 <= i < |r| ==> pk < r[i] <= pk + |evs|)
    decreases |evs|
  {
    if evs != [] {
      var pre := evs[..|evs| - 1];
      AnomalousIdsExact(pk, pre);
      assert forall i :: 0 <= i < |pre| ==> pre[i] == evs[i];
    }
  }

  // ---------------------------------------------------------------------------
  // One `add`
  // ---------------------------------------------------------------------------

  /** Setting the flag by identity touches only the newest row when every other
      buffered row carries a different identity. */
  lemma MarkNewest(buf: seq<TradeRecord>, rec: TradeRecord)
    requires forall i :: 0 <= i < |buf| ==> buf[i].id != rec.id
    ensures MarkFlagged(buf + [rec], rec.id) == buf + [rec.(flagged := true)]
  {
    assert forall i :: 0 <= i < |buf| ==> (buf + [rec])[i] == buf[i];
  }

  /** The first part of `add` buffers the new row under the next identity, caches
      its symbol, and changes nothing else. */
  lemma AppendFacts(a: Analyser, t: Trade)
    ensures var pk := a.currentPk + 1;
      Append(a, t) == GetSymbol(a, t.symbol).(currentPk := pk,
                                             tradesObjs := a.tradesObjs + [NewRecord(pk, t)],
                                             tradecount := a.tradecount + 1,
                                             tradeacc := a.tradeacc + 1)
  {
  }

  /** The threshold block moves rows from the buffer to the store without changing
      what has been handed over, and touches nothing but the buffer, its counter
      and the store's rows, commit mark and insert count. */
  lemma SaveAtLimitFacts(a: Analyser, commit: bool)
    ensures var b := SaveAtLimit(a, commit);
      Handed(b) == Handed(a)
      && |a.db.rows| <= |b.db.rows| && b.db.rows[..|a.db.rows|] == a.db.rows
      && b.tradesObjs == (if a.tradeacc == a.tradeaccLimit then [] else a.tradesObjs)
      && b.tradeacc == (if a.tradeacc == a.tradeaccLimit then 0 else a.tradeacc)
      && b == a.(tradesObjs := b.tradesObjs, tradeacc := b.tradeacc, db := b.db)
      && b.db.symbolLookups == a.db.symbolLookups
  {
  }

  /** `add` keeps the invariant: the bulk save at the limit is what keeps the buffer
      below it, and the cache only grows by names it lacks. */
  lemma AddPreservesInv(a: Analyser, t: Trade, commit: bool, anomalous: bool)
    requires Inv(a)
    ensures Inv(Add(a, t, commit, anomalous))
  {
    AppendFacts(a, t);
    SaveAtLimitFacts(Append(a, t), commit);
    if t.symbol !in a.symbols {
      assert NoDup(a.symbols + [t.symbol]);
    }
  }

  /** `add` of a trade the finder lets through: its row is handed over unflagged. */
  lemma OrdinaryAddAppends(a: Analyser, t: Trade, commit: bool)
    requires Inv(a)
    ensures var b := Add(a, t, commit, false);
      b.db.rows[..|a.db.rows|] == a.db.rows
      && Handed(b) == Handed(a) + [NewRecord(a.currentPk + 1, t)]
  {
    AppendFacts(a, t);
    SaveAtLimitFacts(Append(a, t), commit);
  }

  /** `add` of an anomalous trade that fills the buffer: the bulk save has already
      stored its row unflagged, so setting the flag on its mapping stores nothing. */
  lemma AnomalousAddAfterSave(a: Analyser, t: Trade, commit: bool)
    requires Inv(a) && a.tradeacc + 1 == a.tradeaccLimit
    ensures var b := Add(a, t, commit, true);
      b.db.rows[..|a.db.rows|] == a.db.rows
      && Handed(b) == Handed(a) + [NewRecord(a.currentPk + 1, t)]
  {
    var a2 := Append(a, t);
    AppendFacts(a, t);
    SaveAtLimitFacts(a2, commit);
    assert SaveAtLimit(a2, commit).tradesObjs == [];
    assert MarkFlagged([], a.currentPk + 1) == [];
  }

  /** `add` of an anomalous trade still in the buffer: its row is stored flagged
      by the forced commit, and no other buffered row is flagged. */
  lemma AnomalousAddBuffered(a: Analyser, t: Trade, commit: bool)
    requires Inv(a) && a.tradeacc + 1 != a.tradeaccLimit
    ensures var b := Add(a, t, commit, true);
      b.db.rows[..|a.db.rows|] == a.db.rows
      && Handed(b) == Handed(a) + [NewRecord(a.currentPk + 1, t).(flagged := true)]
  {
    var rec := NewRecord(a.currentPk + 1, t);
    var a2 := Append(a, t);
    AppendFacts(a, t);
    var a3 := SaveAtLimit(a2, commit);
    SaveAtLimitFacts(a2, commit);
    assert a3.tradesObjs == a.tradesObjs + [rec] && a3.db.rows == a.db.rows;
    MarkNewest(a.tradesObjs, rec);
  }

  /** One `add` allocates identity `currentPk + 1`, leaves the stored rows in
      place, and appends exactly one row to what has been handed over: the new
      trade's row, flagged exactly when the trade is anomalous and the bulk save
      at the limit did not already take its mapping away. */
  lemma AddAppendsRecord(a: Analyser, t: Trade, commit: bool, anomalous: bool)
    requires Inv(a)
    ensures var b := Add(a, t, commit, anomalous);
            var pk := a.currentPk + 1;
            var flushed := a.tradeacc + 1 == a.tradeaccLimit;
      b.currentPk == pk && b.tradecount == a.tradecount + 1
      && |a.db.rows| <= |b.db.rows| && b.db.rows[..|a.db.rows|] == a.db.rows
      && Handed(b) == Handed(a) + [NewRecord(pk, t).(flagged := anomalous && !flushed)]
  {
    if !anomalous {
      OrdinaryAddAppends(a, t, commit);
    } else if a.tradeacc + 1 == a.tradeaccLimit {
      AnomalousAddAfterSave(a, t, commit);
    } else {
      AnomalousAddBuffered(a, t, commit);
    }
  }

  /** An anomalous `add` counts one anomaly, writes exactly one alert carrying the
      new identity, and leaves the buffer empty with every stored row committed;
      the new row is the last stored one, flagged unless the bulk save at the limit
      had already stored it.  A restart, which seeds its counter from the committed
      rows, can therefore never hand out that identity again. */
  lemma AnomalousAdd(a: Analyser, t: Trade, commit: bool)
    requires Inv(a)
    ensures var b := Add(a, t, commit, true);
            var pk := a.currentPk + 1;
      b.anomalies == a.anomalies + 1 && b.alerts == a.alerts + [pk]
      && b.tradesObjs == [] && b.tradeacc == 0
      && b.db.committed == |b.db.rows| && |b.db.rows| > 0
      && b.db.rows[|b.db.rows| - 1]
         == NewRecord(pk, t).(flagged := a.tradeacc + 1 != a.tradeaccLimit)
      && HighestId(b.db.rows[..b.db.committed]) >= pk
  {
    var b := Add(a, t, commit, true);
    AddAppendsRecord(a, t, commit, true);
    assert b.db.rows == Handed(b);
    assert b.db.rows[..b.db.committed] == b.db.rows;
  }

  /** As written, an anomalous trade that fills the buffer is stored unflagged:
      the bulk save at the limit inserts its mapping before `flag` sets the flag on
      it, yet the alert for it is written. */
  lemma FlagLostAtLimit(a: Analyser, t: Trade, commit: bool)
    requires Inv(a) && a.tradeacc + 1 == a.tradeaccLimit
    ensures var b := Add(a, t, commit, true);
            var pk := a.currentPk + 1;
      b.alerts == a.alerts + [pk]
      && b.db.rows == a.db.rows + a.tradesObjs + [NewRecord(pk, t)]
      && !b.db.rows[|b.db.rows| - 1].flagged
  {
    AnomalousAddAfterSave(a, t, commit);
    AnomalousAdd(a, t, commit);
  }

  /** With the anomaly check before the threshold block, every anomalous trade is
      stored flagged, whatever the counter: the buffer, then the flagged row, are
      stored and committed, and one alert carries the new identity. */
  lemma FlagFirstStoresFlagged(a: Analyser, t: Trade, commit: bool)
    requires Inv(a)
    ensures var b := AddFlagFirst(a, t, commit, true);
            var pk := a.currentPk + 1;
      b.alerts == a.alerts + [pk] && b.anomalies == a.anomalies + 1
      && b.db.rows == a.db.rows + a.tradesObjs + [NewRecord(pk, t).(flagged := true)]
      && b.db.committed == |b.db.rows| && b.tradesObjs == [] && b.tradeacc == 0
  {
    var rec := NewRecord(a.currentPk + 1, t);
    AppendFacts(a, t);
    MarkNewest(a.tradesObjs, rec);
  }

  /** An `add` the anomaly finder lets through writes no alert and counts no
      anomaly; its row stays buffered and nothing is stored unless the counter
      reached the limit, in which case the whole buffer is stored by one bulk
      insert and emptied, and committed only when the caller asked for it. */
  lemma OrdinaryAdd(a: Analyser, t: Trade, commit: bool)
    requires Inv(a)
    ensures var b := Add(a, t, commit, false);
            var pk := a.currentPk + 1;
      b.anomalies == a.anomalies && b.alerts == a.alerts
      && (a.tradeacc + 1 == a.tradeaccLimit ==>
            b.db.rows == a.db.rows + a.tradesObjs + [NewRecord(pk, t)] && b.tradesObjs == []
            && b.db.bulkInserts == a.db.bulkInserts + 1
            && b.db.committed == (if commit then |b.db.rows| else a.db.committed))
      && (a.tradeacc + 1 != a.tradeaccLimit ==>
            b.db.rows == a.db.rows && b.db.committed == a.db.committed
            && b.db.bulkInserts == a.db.bulkInserts
            && b.tradesObjs == a.tradesObjs + [NewRecord(pk, t)])
  {
  }

  // ---------------------------------------------------------------------------
  // The history invariant
  // ---------------------------------------------------------------------------

  /** Since state `s0`, the calls `evs` advanced the identity counter and the trade
      count by one each, left the rows stored before in place, and appended one
      row per call to what has been handed over, as `Created` builds it, flagged
      only for anomalous calls. */
  ghost predicate RecordsExplained(s0: Analyser, evs: seq<Event>, a: Analyser)
  {
    a.currentPk == s0.currentPk + |evs| && a.tradecount == s0.tradecount + |evs|
    && |s0.db.rows| <= |a.db.rows| && a.db.rows[..|s0.db.rows|] == s0.db.rows
    && |Handed(s0)| <= |Handed(a)| && Handed(a)[..|Handed(s0)|] == Handed(s0)
    && Unflagged(Handed(a)[|Handed(s0)|..]) == Created(s0.currentPk, evs)
    && FlagsFollow(Handed(a)[|Handed(s0)|..], evs)
  }

  /** Since state `s0`, one alert was written, and one anomaly counted, per
      anomalous call, in order, carrying its identity. */
  ghost predicate AlertsExplained(s0: Analyser, evs: seq<Event>, a: Analyser)
  {
    a.currentPk == s0.currentPk + |evs|
    && a.alerts == s0.alerts + AnomalousIds(s0.currentPk, evs)
    && a.anomalies == s0.anomalies + |AnomalousIds(s0.currentPk, evs)|
  }

  /** Since state `s0`, the symbol cache only grew, holds exactly the names it
      held and the names of the calls' trades, and get-or-create was called once
      per newly cached name, in caching order, and never otherwise. */
  ghost predicate SymbolsExplained(s0: Analyser, evs: seq<Event>, a: Analyser)
  {
    |s0.symbols| <= |a.symbols| && a.symbols[..|s0.symbols|] == s0.symbols
    && a.db.symbolLookups == s0.db.symbolLookups + a.symbols[|s0.symbols|..]
    && forall n :: n in a.symbols <==> n in s0.symbols || n in SymbolsOf(evs)
  }

  ghost predicate Explains(s0: Analyser, evs: seq<Event>, a: Analyser)
  {
    RecordsExplained(s0, evs, a) && AlertsExplained(s0, evs, a) && SymbolsExplained(s0, evs, a)
  }

  /** No call yet: the state explains itself. */
  lemma ExplainsStart(a: Analyser)
    ensures Explains(a, [], a)
  {
    assert Handed(a)[|Handed(a)|..] == [];
    assert a.symbols[|a.symbols|..] == [];
  }

  /** Appending one row to the handed-over sequence extends the explained record
      history by one call. */
  lemma ExtendCreated(h0: seq<TradeRecord>, h: seq<TradeRecord>, r: TradeRecord,
                      pk: int, evs: seq<Event>, e: Event)
    requires |h0| <= |h| && h[..|h0|] == h0
    requires Unflagged(h[|h0|..]) == Created(pk, evs) && FlagsFollow(h[|h0|..], evs)
    requires r.(flagged := false) == NewRecord(pk + |evs| + 1, e.trade) && (r.flagged ==> e.anomalous)
    ensures (h + [r])[..|h0|] == h0
    ensures Unflagged((h + [r])[|h0|..]) == Created(pk, evs + [e])
    ensures FlagsFollow((h + [r])[|h0|..], evs + [e])
  {
    assert (h + [r])[..|h0|] == h[..|h0|];
    assert (h + [r])[|h0|..] == h[|h0|..] + [r];
    assert (evs + [e])[..|evs|] == evs;
    assert Unflagged(h[|h0|..] + [r]) == Unflagged(h[|h0|..]) + [r.(flagged := false)];
  }

  /** A step that advances the counter and the trade count by one, keeps the stored
      rows as a prefix and hands over one more row, built for the call's trade under
      the next identity and flagged only if the call is anomalous, extends the
      explained record history by that call. */
  lemma ExtendRecords(s0: Analyser, evs: seq<Event>, a: Analyser, b: Analyser, e: Event, r: TradeRecord)
    requires RecordsExplained(s0, evs, a)
    requires b.currentPk == a.currentPk + 1 && b.tradecount == a.tradecount + 1
    requires |a.db.rows| <= |b.db.rows| && b.db.rows[..|a.db.rows|] == a.db.rows
    requires Handed(b) == Handed(a) + [r]
    requires r.(flagged := false) == NewRecord(a.currentPk + 1, e.trade) && (r.flagged ==> e.anomalous)
    ensures RecordsExplained(s0, evs + [e], b)
  {
    ExtendCreated(Handed(s0), Handed(a), r, s0.currentPk, evs, e);
    assert b.db.rows[..|s0.db.rows|] == b.db.rows[..|a.db.rows|][..|s0.db.rows|];
  }

  /** A step that advances the counter by one and, for an anomalous call only,
      appends one alert with the new identity and counts one anomaly, extends the
      explained alert history by that call. */
  lemma ExtendAlerts(s0: Analyser, evs: seq<Event>, a: Analyser, b: Analyser, e: Event)
    requires AlertsExplained(s0, evs, a)
    requires b.currentPk == a.currentPk + 1
    requires b.alerts == a.alerts + (if e.anomalous then [a.currentPk + 1] else [])
    requires b.anomalies == a.anomalies + (if e.anomalous then 1 else 0)
    ensures AlertsExplained(s0, evs + [e], b)
  {
    assert (evs + [e])[..|evs|] == evs;
  }

  /** The names of the trades of `evs + [e]`: those of `evs` and `e`'s. */
  lemma SymbolsOfSnoc(evs: seq<Event>, e: Event)
    ensures SymbolsOf(evs + [e]) == SymbolsOf(evs) + {e.trade.symbol}
  {
    var evs' := evs + [e];
    forall n | n in SymbolsOf(evs') ensures n in SymbolsOf(evs) + {e.trade.symbol} {
      var i :| 0 <= i < |evs'| && evs'[i].trade.symbol == n;
      if i < |evs| { assert evs[i] == evs'[i]; }
    }
    forall n | n in SymbolsOf(evs) ensures n in SymbolsOf(evs') {
      var i :| 0 <= i < |evs| && evs[i].trade.symbol == n;
      assert evs'[i] == evs[i];
    }
    assert evs'[|evs|] == e;
  }

  /** Caching one more name, and looking it up once, extends the explained symbol
      history by a call for a trade with that name; a cached name changes nothing. */
  lemma ExtendSymbols(s0: Analyser, evs: seq<Event>, a: Analyser, b: Analyser, e: Event)
    requires SymbolsExplained(s0, evs, a)
    requires var added := if e.trade.symbol in a.symbols then [] else [e.trade.symbol];
      b.symbols == a.symbols + added && b.db.symbolLookups == a.db.symbolLookups + added
    ensures SymbolsExplained(s0, evs + [e], b)
  {
    assert b.symbols[..|s0.symbols|] == b.symbols[..|a.symbols|][..|s0.symbols|];
    assert b.symbols[|s0.symbols|..] == a.symbols[|s0.symbols|..] + b.symbols[|a.symbols|..];
    SymbolsOfSnoc(evs, e);
  }

  /** `save_load` and `force_commit` move rows from the buffer to the store without
      changing what has been handed over, so they keep the invariant and history. */
  lemma ForceCommitKeepsHistory(s0: Analyser, evs: seq<Event>, a: Analyser)
    requires Inv(a) && Explains(s0, evs, a)
    ensures Inv(SaveLoad(a)) && Explains(s0, evs, SaveLoad(a))
    ensures Inv(ForceCommit(a)) && Explains(s0, evs, ForceCommit(a))
  {
    var b := SaveLoad(a);
    assert Handed(b) == Handed(a);
    assert b.db.rows[..|s0.db.rows|] == b.db.rows[..|a.db.rows|][..|s0.db.rows|];
  }

  /** One `add` after any history extends it by one call: with `ForceCommitKeepsHistory`,
      the invariant and the history hold across any interleaving of `add`,
      `save_load` and `force_commit`. */
  lemma AddKeepsHistory(s0: Analyser, evs: seq<Event>, c: Analyser, e: Event)
    requires Inv(c) && Explains(s0, evs, c)
    ensures Inv(Add(c, e.trade, e.commit, e.anomalous))
    ensures Explains(s0, evs + [e], Add(c, e.trade, e.commit, e.anomalous))
  {
    var b := Add(c, e.trade, e.commit, e.anomalous);
    AddPreservesInv(c, e.trade, e.commit, e.anomalous);
    AddAppendsRecord(c, e.trade, e.commit, e.anomalous);
    ExtendRecords(s0, evs, c, b, e, NewRecord(c.currentPk + 1, e.trade)
                                      .(flagged := e.anomalous && c.tradeacc + 1 != c.tradeaccLimit));
    ExtendAlerts(s0, evs, c, b, e);
    ExtendSymbols(s0, evs, c, b, e);
  }

  // ---------------------------------------------------------------------------
  // Any sequence of `add` calls
  // ---------------------------------------------------------------------------

  /** Any sequence of calls keeps the invariant and is explained by its history. */
  lemma {:induction false} RunExplains(a: Analyser, evs: seq<Event>, b: Analyser)
    requires Inv(a) && b == Run(a, evs)
    ensures Inv(b) && Explains(a, evs, b)
    decreases |evs|
  {
    if evs == [] {
      ExplainsStart(a);
    } else {
      var pre := evs[..|evs| - 1];
      var e := evs[|evs| - 1];
      var c := Run(a, pre);
      assert pre + [e] == evs;
      assert b == Add(c, e.trade, e.commit, e.anomalous);
      RunExplains(a, pre, c);
      AddKeepsHistory(a, pre, c, e);
    }
  }

  /** A fresh analyser over store `db` followed by N calls: identities run from
      the highest stored identity plus one, consecutively and above every identity
      already stored, and `tradecount` is the distance the counter moved; the
      stored rows followed by the buffer are the pre-existing rows and then one
      row per call, in call order, flagged only for anomalous calls; there is one
      alert per anomalous call; get-or-create was called exactly once per distinct
      symbol seen; and with a positive limit the buffer is below the limit. */
  lemma IngestFromStart(db: Session, alerts: seq<int>, tradeaccLimit: int, evs: seq<Event>)
    ensures var s := HighestId(db.rows);
            var b := Run(Init(db, alerts, tradeaccLimit), evs);
      Inv(b)
      && b.currentPk == s + |evs| && b.tradecount == b.currentPk - s
      && |db.rows| <= |Handed(b)| && Handed(b)[..|db.rows|] == db.rows
      && Unflagged(Handed(b)[|db.rows|..]) == Created(s, evs)
      && FlagsFollow(Handed(b)[|db.rows|..], evs)
      && (forall j :: 0 <= j < |db.rows| ==> db.rows[j].id <= s)
      && b.alerts == alerts + AnomalousIds(s, evs)
      && b.anomalies == |AnomalousIds(s, evs)|
      && b.db.symbolLookups == db.symbolLookups + b.symbols
      && NoDup(b.symbols)
      && (forall n :: n in b.symbols <==> n in SymbolsOf(evs))
  {
    var a := Init(db, alerts, tradeaccLimit);
    RunExplains(a, evs, Run(a, evs));
    assert Handed(a) == db.rows;
  }
}
