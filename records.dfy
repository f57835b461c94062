/** Values that flow through the trade analyser: the incoming trade and the row
    mapping built for it. */
module Records {

  /** An incoming trade event, reduced to the attributes the analyser copies. */
  datatype Trade = Trade(symbol: string, price: real, size: int)

  /** The mapping handed to the bulk insert: one trade row. */
  datatype TradeRecord = TradeRecord(id: int, price: real, size: int, symbolName: string, flagged: bool)

  /** The row `add` builds for trade `t` under identity `id`; it starts unflagged. */
  function NewRecord(id: int, t: Trade): (r: TradeRecord)
    ensures r.id == id && !r.flagged
    ensures r.price == t.price && r.size == t.size && r.symbolName == t.symbol
  {
    TradeRecord(id, t.price, t.size, t.symbol, false)
  }

  /** What the query "highest trade id, or 0 when there is none" returns for `rows`. */
  function HighestId(rows: seq<TradeRecord>): (m: int)
    ensures rows == [] ==> m == 0
    ensures forall i :: 0 <= i < |rows| ==> rows[i].id <= m
    ensures rows != [] ==> exists i :: 0 <= i < |rows| && rows[i].id == m
  {
    if |rows| == 0 then 0
    else if |rows| == 1 then rows[0].id
    else
      var rest := HighestId(rows[1..]);
      assert forall i :: 1 <= i < |rows| ==> rows[i] == rows[1..][i - 1];
      if rows[0].id < rest then rest else rows[0].id
  }

  /** The buffer after the in-place `flagged = True` on the record with identity `id`.
      The program flags one dictionary object; the model flags every buffered record
      carrying its identity. The two agree for the dictionary `add` passes, which is
      the newest buffered record or no longer buffered, since buffered identities
      are distinct. Only the flag changes. */
  function MarkFlagged(buf: seq<TradeRecord>, id: int): (r: seq<TradeRecord>)
    ensures |r| == |buf|
    ensures forall i :: 0 <= i < |buf| ==>
      r[i].(flagged := buf[i].flagged) == buf[i] && (r[i].flagged <==> buf[i].flagged || buf[i].id == id)
  {
    seq(|buf|, i requires 0 <= i < |buf| => if buf[i].id == id then buf[i].(flagged := true) else buf[i])
  }

  /** True when no value occurs twice in `s`. */
  ghost predicate NoDup<T>(s: seq<T>)
  {
    forall i, j :: 0 <= i < j < |s| ==> s[i] != s[j]
  }
}
