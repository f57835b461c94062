# Trade analyser: ingestion, batching and anomaly flagging

This project models `TradesAnalyser` of `purple/analysis.py`: the component that takes
a stream of trades, assigns each the next identity, caches symbol names, buffers one
row mapping per trade, bulk-inserts the buffer into the SQL store when its counter
reaches `tradeacc_limit`, and, when the anomaly finder judges a trade anomalous,
flags the trade's mapping, forces a commit and writes an alert carrying the trade's
identity to the alert store.

The model has three layers.

- `Records` (`records.dfy`): the incoming trade, the row mapping built for it, the
  "highest id or 0" query and the effect of setting `flagged` on the buffered
  mapping with a given identity.
- `Ingest` (`ingest.dfy`): a reference state machine over values. A datatype
  `Analyser` holds the analyser's fields together with what the SQL session and the
  alert store have received. There is one function per operation (`Init`,
  `GetSymbol`, `SaveLoad`, `ForceCommit`, `Flag`, `Add`), and `Run` gives the state
  after a sequence of `add` calls.
- `IngestProperties` (`ingest_properties.dfy`): what the program promises, proved
  about those functions. The single-call lemmas cover:
  - the new identity;
  - one row handed over per call;
  - the alert for an anomalous trade, and the commit it forces;
  - the batching at the limit;
  - symbol deduplication.

  For any sequence of calls, the properties follow from a history invariant
  (`Explains`), which holds across any interleaving of `add`, `save_load` and
  `force_commit`:
  - identities are consecutive and above every identity already stored;
  - rows are kept in call order;
  - only anomalous trades are flagged;
  - there is exactly one alert per anomalous trade, in order;
  - get-or-create is called once per distinct symbol.
- `Analysis` (`analysis.dfy`): the program's own form. `TradesAnalyser` is a class
  whose fields are updated in place; `TradeSession` and `AlertTable` are the two
  stores it writes to. Every method is proved to move the abstract `State()` exactly
  as the matching `Ingest` function does, so the lemmas of `IngestProperties` hold of
  the object. The public methods keep the invariant `Inv`.

## Model

| member | source | states |
|---|---|---|
| Records.NewRecord | purple/analysis.py:48-54 | the new mapping carries the given identity and the trade's price, size and symbol, and starts unflagged |
| Records.MarkFlagged | purple/analysis.py:97 | the buffer keeps its length and every mapping keeps everything but its flag; a mapping is flagged afterwards exactly when it was flagged before or carries the given identity |
| Records.HighestId | purple/analysis.py:37-39 | the seed is 0 for an empty store, otherwise an identity that occurs in the store and is at least every stored identity |
| Ingest.Init | purple/analysis.py:27-39 | a fresh analyser has an empty cache and buffer and zero counters, keeps the limit it was given, and starts its identity counter equal to the highest stored identity (0 for an empty store); the invariant holds |
| Ingest.GetSymbol | purple/analysis.py:88-94 | after the call the name is cached; an already cached name changes nothing; a new name is appended to the cache and passed once to get-or-create |
| Ingest.SaveLoad | purple/analysis.py:80-86 | the whole buffer, in order, is appended to the stored rows by one bulk insert, or by none when it is empty; the buffer and its counter are reset; nothing else changes |
| Ingest.ForceCommit | purple/analysis.py:76-78 | the buffer is stored, by one bulk insert unless it is empty, and every stored row is committed; the buffer and its counter are reset; nothing else changes |
| Ingest.Commit | purple/analysis.py:78 | every stored row is committed; nothing else changes |
| Ingest.Flag | purple/analysis.py:96-104 | the flag is set on every buffered mapping carrying the trade's identity (the trade's own mapping, if it is still buffered); the buffer is stored, by one bulk insert unless it is empty, and committed; exactly one alert with the trade's identity is appended; nothing else changes |
| Ingest.Add | purple/analysis.py:41-74 | one `add` advances the identity counter and the trade count by one, counts one anomaly and appends one alert with the new identity exactly when the trade is anomalous, caches the symbol and calls get-or-create for it exactly when it was not cached, and keeps the limit |
| IngestProperties.AppendFacts | purple/analysis.py:42-58 | the first part of `add` buffers the new unflagged row under identity `current_pk + 1`, resolves the symbol and bumps both counters, and changes nothing else |
| IngestProperties.SaveAtLimitFacts | purple/analysis.py:64-70 | the threshold block empties the buffer exactly when the counter equals the limit; it never changes what has been handed to the store, keeps the stored rows as a prefix, and touches nothing outside the buffer and the store |
| IngestProperties.AddPreservesInv | purple/analysis.py:41-74 | `add` keeps the invariant: the buffer matches its counter, it stays below a positive limit, the buffered identities are the latest ones in order, and the cache holds no name twice |
| IngestProperties.MarkNewest | purple/analysis.py:97 | setting the flag by identity on the buffer changes only the newest mapping, because no other buffered mapping has its identity |
| IngestProperties.OrdinaryAddAppends | purple/analysis.py:41-70 | a trade the finder lets through adds one unflagged row to what has been handed over, and the stored rows stay a prefix |
| IngestProperties.AnomalousAddAfterSave | purple/analysis.py:64-74 | when the trade fills the buffer, its row was stored by the bulk save before the flag was set, so it is handed over unflagged |
| IngestProperties.AnomalousAddBuffered | purple/analysis.py:72-74 | when the trade is still buffered, its row is handed over flagged and no other row changes |
| IngestProperties.AddAppendsRecord | purple/analysis.py:41-74 | one `add` allocates identity `current_pk + 1`, counts one trade, keeps the stored rows as a prefix, and appends exactly one row to what has been handed over: the trade's, flagged exactly when it is anomalous and was not already stored at the limit |
| IngestProperties.AnomalousAdd | purple/analysis.py:72-74 | an anomalous `add` counts one anomaly, writes exactly one alert with the new identity, leaves the buffer empty and every stored row committed, and stores the trade's row last; the highest committed identity is then at least the new one, so a restart cannot reuse it |
| IngestProperties.FlagLostAtLimit | purple/analysis.py:64-74 | as written, an anomalous trade that fills the buffer gets an alert but its stored row is unflagged |
| IngestProperties.FlagFirstStoresFlagged | purple/analysis.py:72-74 | with the anomaly check placed before the threshold block, an anomalous trade's stored row is always flagged, after the rest of the buffer, with one alert and everything committed |
| IngestProperties.OrdinaryAdd | purple/analysis.py:64-70 | a trade the finder lets through writes no alert. When the counter reaches the limit, the whole buffer and the new row are stored in one bulk insert and committed only if the caller asked. Otherwise nothing is stored and the row is buffered |
| IngestProperties.CreatedAt | purple/analysis.py:43-54 | the i-th row created by a sequence of calls is the i-th trade's row under identity `seed + 1 + i`: identities are consecutive, in call order, with no gap or repeat |
| IngestProperties.AnomalousIdsExact | purple/analysis.py:72-74 | the alert identities of a sequence of calls are exactly those of the anomalous calls, each once, strictly increasing, and within the range the calls allocated |
| IngestProperties.ExplainsStart | purple/analysis.py:27-39 | before any call the state is explained by the empty history |
| IngestProperties.ExtendCreated | purple/analysis.py:56 | appending one row to the handed-over rows extends the record history by one call |
| IngestProperties.ExtendRecords | purple/analysis.py:41-74 | a step that advances the counter and count by one, keeps the stored rows as a prefix and hands over one more row, the call's trade under the next identity flagged only if anomalous, extends the record history by that call; `AddAppendsRecord` shows `add` is such a step |
| IngestProperties.ExtendAlerts | purple/analysis.py:72-74 | a step that advances the counter by one and, only for an anomalous call, appends one alert with the new identity and counts one anomaly, extends the alert history by that call; `Ingest.Add` is such a step |
| IngestProperties.SymbolsOfSnoc | purple/analysis.py:45 | the symbols of `evs + [e]` are those of `evs` and the symbol of `e` |
| IngestProperties.ExtendSymbols | purple/analysis.py:88-94 | caching and looking up one new name, or nothing for a cached name, extends the symbol history by one call |
| IngestProperties.ForceCommitKeepsHistory | purple/analysis.py:76-86 | `save_load` and `force_commit` keep the invariant and the history: they only move rows from the buffer to the store |
| IngestProperties.AddKeepsHistory | purple/analysis.py:41-74 | one `add` after any explained state keeps the invariant and extends the history by that call; with `ForceCommitKeepsHistory`, the invariant and the history hold across any interleaving of `add`, `save_load` and `force_commit` |
| IngestProperties.RunExplains | purple/analysis.py:41-74 | any sequence of `add` calls keeps the invariant and is explained by its whole history: counter and count advance by one per call, stored rows stay a prefix, one row per call in order, flagged only for anomalous calls; one alert and one counted anomaly per anomalous call, in order, with its identity; the cache only grows, holds exactly the old names and the trades' symbols, and get-or-create was called once per newly cached name |
| IngestProperties.IngestFromStart | purple/analysis.py:27-74 | after a fresh analyser and any N calls: identities run consecutively from the highest stored identity plus one, and `tradecount` is N. The stored rows plus the buffer are the old rows, then one row per call in call order, flagged only for anomalous calls. There is one alert and one counted anomaly per anomalous call. Get-or-create was called once per distinct symbol seen, and the cache is exactly those symbols |
| Analysis.TradeSession.BulkInsertMappings | purple/analysis.py:83 | one bulk insert appends the mappings to the stored rows and counts one round trip |
| Analysis.TradeSession.Commit | purple/analysis.py:78 | a commit makes every stored row durable |
| Analysis.TradeSession.GetOrCreateSymbol | purple/analysis.py:92 | one get-or-create call for the name is recorded |
| Analysis.AlertTable.Insert | purple/analysis.py:100-104 | one alert carrying the trade identity is appended |
| Analysis.TradesAnalyser.constructor | purple/analysis.py:27-39 | the object starts in the state `Ingest.Init` gives for the session's rows, and the invariant holds |
| Analysis.TradesAnalyser.Add | purple/analysis.py:41-74 | the object moves as `Ingest.Add` does for the trade, the commit flag and the finder's verdict, and keeps the invariant |
| Analysis.TradesAnalyser.BufferTrade | purple/analysis.py:42-58 | the object moves as the first part of `add` does, and the returned mapping is the new trade's unflagged row under the next identity |
| Analysis.TradesAnalyser.SaveAtLimit | purple/analysis.py:64-70 | the object moves as the threshold block of `add` does |
| Analysis.TradesAnalyser.ForceCommit | purple/analysis.py:76-78 | the object moves as `Ingest.ForceCommit` does and keeps the invariant |
| Analysis.TradesAnalyser.SaveLoad | purple/analysis.py:80-86 | the object moves as `Ingest.SaveLoad` does and keeps the invariant |
| Analysis.TradesAnalyser.GetSymbol | purple/analysis.py:88-94 | the name is returned, the object moves as `Ingest.GetSymbol` does, and the invariant is kept |
| Analysis.TradesAnalyser.Flag | purple/analysis.py:96-104 | the object moves as `Ingest.Flag` does, flagging the buffered mapping by the trade's identity, and the invariant is kept |

## Left out

- Console progress output (`stdout_write`, `reset_line` and the message in `add`) has no effect on the state and is not modelled.
- The anomaly finder (`AnomalousTradeFinder.is_anomalous`) is code outside this model. Its verdict for each trade is a boolean parameter of `add`.
- `db.session.flush()` stages the pending insert without committing it. The model records rows when they are bulk-inserted, and it records commits as the committed prefix of those rows, so a flush has no modelled effect.
- `get_or_create` is modelled only as a recorded call: its result is unused, and its effect on the symbol table is outside this model. The query for the highest trade id reads the session's rows.
- The alert write is modelled as the appended `trade_pk`. Its timestamp and time zone, the RethinkDB connection and its soft durability are outside this model.
- Store failures and exceptions are not modelled: every store call is assumed to succeed.
- The SQL session and the alert table are global objects in the program. Here they are objects passed to the constructor.
- Prices are modelled as `real`. Python floats are only copied into the row, never computed with.
- Only the trade attributes the program copies (symbol, price, size) are modelled.
- `is_anomalous` gives one verdict per trade, and the anomaly check runs after the threshold block, as in the program.
- The default arguments `tradeacc_limit=2500` and `commit=False` are not modelled: the constructor and `Add` take both explicitly.
- Inv: states the buffer bound only for a limit of at least 1. The program accepts any `tradeacc_limit`. With a limit of 0 or less, the counter never equals the limit after an increment, so only `flag` and `force_commit` empty the buffer.
- Analysis.TradesAnalyser.Add: the object has no history of its own. The properties of sequences of calls are proved about the `Ingest` functions, which the object follows call by call: `Ingest.Run` for a sequence of `add` calls, and `AddKeepsHistory` with `ForceCommitKeepsHistory` for any interleaving of `add`, `save_load` and `force_commit`.
- Ingest.Flag: the flag goes to every buffered mapping carrying the trade's identity, not to the one dictionary object passed in. The two agree for every call `add` makes, because that dictionary is the newest buffered mapping or is no longer buffered, and buffered identities are distinct. A direct call with a copy of a buffered mapping flags the buffered one here, while the program would leave it unflagged.
- Analysis.TradesAnalyser.Flag: the same selection by identity as `Ingest.Flag`; the model has no object identity for mappings, so a copy of a buffered mapping passed directly is treated as that mapping.
- `frontend/src/components/pages/home.js` and `frontend/src/routes.js` are not part of this model.

## Findings

| source | as written | input that shows it | evidently intended | confidence | as-written member | corrected member |
|---|---|---|---|---|---|---|
| purple/analysis.py:64-74 | the threshold block bulk-inserts the buffer before the anomaly check, so `trade['flagged'] = True` changes a mapping that has already been inserted | `tradeacc_limit = 1` (or any trade that brings `tradeacc` to the limit) and an anomalous trade: the alert carries its id, but its stored row is unflagged | every anomalous trade's stored row is flagged, as the order "anomaly check, then threshold" would give | medium, not executed | IngestProperties.FlagLostAtLimit | IngestProperties.FlagFirstStoresFlagged |
