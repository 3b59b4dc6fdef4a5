/** The limit store: a table keyed by the peer's hexadecimal key, holding
    the pending and hourly-rate caps. */
module LimitDb {
  import opened Wrappers
  import opened Hex
  import DaemonConfig

  /** A limit as the daemon holds it (Go `int64` fields). */
  datatype Limit = Limit(maxHourlyRate: int, maxPending: int, mode: DaemonConfig.Mode)

  /** A stored row; the mode column is never written, so it keeps its
      default and is not part of the model. */
  datatype Row = Row(maxPending: int, maxHourlyRate: int)

  /** The `limits` table: `peer` is its primary key. */
  type Table = map<string, Row>

  /** `UpdateLimit`: both caps 0 deletes the peer's row; anything else
      replaces it. */
  function UpdateLimit(table: Table, peer: Vertex, limit: Limit): (r: Table)
    ensures limit.maxHourlyRate == 0 && limit.maxPending == 0 ==> HexEncode(peer) !in r
    ensures !(limit.maxHourlyRate == 0 && limit.maxPending == 0) ==>
      HexEncode(peer) in r && r[HexEncode(peer)] == Row(limit.maxPending, limit.maxHourlyRate)
    ensures forall k | k != HexEncode(peer) :: (k in r <==> k in table) && (k in r ==> r[k] == table[k])
  {
    var key := HexEncode(peer);
    if limit.maxHourlyRate == 0 && limit.maxPending == 0 then table - {key}
    else table[key := Row(limit.maxPending, limit.maxHourlyRate)]
  }

  /** The limit a row reads back as; the mode is not read and stays zero. */
  function RowLimit(row: Row): Limit {
    Limit(row.maxHourlyRate, row.maxPending, DaemonConfig.ModeFail)
  }

  /** Every key of `m` is read from one of `rows`. */
  ghost predicate KeysFromRows(m: map<Vertex, Limit>, rows: seq<(string, Row)>) {
    forall p | p in m :: exists i | 0 <= i < |rows| :: VertexFromStr(rows[i].0) == Ok(p)
  }

  /** Some row's key is not a valid node key. */
  ghost predicate AnyBadKey(rows: seq<(string, Row)>) {
    exists i | 0 <= i < |rows| :: VertexFromStr(rows[i].0).Err?
  }

  /** A bad key is either before the last row or in it. */
  lemma BadKeyStep(rows: seq<(string, Row)>)
    requires |rows| > 0
    ensures AnyBadKey(rows) <==> AnyBadKey(rows[..|rows| - 1]) || VertexFromStr(rows[|rows| - 1].0).Err?
  {
    var init := rows[..|rows| - 1];
    assert forall i | 0 <= i < |init| :: init[i] == rows[i];
  }

  /** Adding the last row's key keeps every key traceable to a row. */
  lemma KeysCarry(rows: seq<(string, Row)>, m: map<Vertex, Limit>, k: Vertex, l: Limit)
    requires |rows| > 0 && VertexFromStr(rows[|rows| - 1].0) == Ok(k)
    requires KeysFromRows(m, rows[..|rows| - 1])
    ensures KeysFromRows(m[k := l], rows)
  {
    var init := rows[..|rows| - 1];
    assert forall i | 0 <= i < |init| :: init[i] == rows[i];
  }

  /** `GetLimits` over the rows the query returns, in scan order: the first
      key that is not a valid node key aborts the read. */
  function GetLimits(rows: seq<(string, Row)>): (r: Result<map<Vertex, Limit>, VertexError>)
    ensures r.Err? <==> AnyBadKey(rows)
    ensures r.Ok? ==> forall p | p in r.value :: r.value[p].mode == DaemonConfig.ModeFail
    ensures r.Ok? ==> KeysFromRows(r.value, rows)
  {
    if |rows| == 0 then Ok(map[])
    else
      var init := rows[..|rows| - 1];
      var last := rows[|rows| - 1];
      BadKeyStep(rows);
      match GetLimits(init)
      case Err(e) => Err(e)
      case Ok(m) =>
        match VertexFromStr(last.0)
        case Err(e) => Err(e)
        case Ok(k) =>
          KeysCarry(rows, m, k, RowLimit(last.1));
          Ok(m[k := RowLimit(last.1)])
  }

  /** Two keys in the daemon's own text form name the same peer only if
      they are the same text. */
  lemma CanonicalInjective(s: string, t: string)
    requires IsCanonicalKey(s) && IsCanonicalKey(t)
    requires VertexFromStr(s).value == VertexFromStr(t).value
    ensures s == t
  {
  }

  /** Every key in the table is one the daemon writes. */
  predicate AllCanonical(table: Table) {
    forall k | k in table :: IsCanonicalKey(k)
  }

  /** `rows` lists every row of `table` exactly once. */
  predicate Enumerates(rows: seq<(string, Row)>, table: Table) {
    && (forall i | 0 <= i < |rows| :: rows[i].0 in table && table[rows[i].0] == rows[i].1)
    && (forall k | k in table :: exists i | 0 <= i < |rows| :: rows[i].0 == k)
    && (forall i, j | 0 <= i < j < |rows| :: rows[i].0 != rows[j].0)
  }

  /** Every row of `rows` reads back from `m` as its own limit. */
  predicate HoldsRows(m: map<Vertex, Limit>, rows: seq<(string, Row)>) {
    forall i | 0 <= i < |rows| ::
      VertexFromStr(rows[i].0).Ok? && VertexFromStr(rows[i].0).value in m && m[VertexFromStr(rows[i].0).value] == RowLimit(rows[i].1)
  }

  /** Adding the last row's limit keeps the earlier rows' limits, since
      their keys name other peers. */
  lemma ReadStep(rows: seq<(string, Row)>, m: map<Vertex, Limit>)
    requires |rows| > 0 && forall i | 0 <= i < |rows| :: IsCanonicalKey(rows[i].0)
    requires forall i | 0 <= i < |rows| - 1 :: rows[i].0 != rows[|rows| - 1].0
    requires HoldsRows(m, rows[..|rows| - 1])
    ensures var k := VertexFromStr(rows[|rows| - 1].0);
      k.Ok? && HoldsRows(m[k.value := RowLimit(rows[|rows| - 1].1)], rows)
  {
    var last := rows[|rows| - 1];
    assert IsCanonicalKey(last.0);
    var k := VertexFromStr(last.0).value;
    var m' := m[k := RowLimit(last.1)];
    forall i | 0 <= i < |rows|
      ensures VertexFromStr(rows[i].0).Ok? && VertexFromStr(rows[i].0).value in m' && m'[VertexFromStr(rows[i].0).value] == RowLimit(rows[i].1)
    {
      if i < |rows| - 1 {
        assert rows[..|rows| - 1][i] == rows[i];
        if VertexFromStr(rows[i].0).value == k {
          CanonicalInjective(rows[i].0, last.0);
        }
      }
    }
  }

  /** Reading rows with canonical, distinct keys yields each row's limit
      under its key. */
  lemma {:induction false} ReadCanonicalRows(rows: seq<(string, Row)>)
    requires forall i | 0 <= i < |rows| :: IsCanonicalKey(rows[i].0)
    requires forall i, j | 0 <= i < j < |rows| :: rows[i].0 != rows[j].0
    ensures GetLimits(rows).Ok?
    ensures HoldsRows(GetLimits(rows).value, rows)
  {
    if |rows| > 0 {
      var init := rows[..|rows| - 1];
      var last := rows[|rows| - 1];
      assert forall i | 0 <= i < |init| :: init[i] == rows[i];
      ReadCanonicalRows(init);
      var m := GetLimits(init).value;
      assert GetLimits(rows) == Ok(m[VertexFromStr(last.0).value := RowLimit(last.1)]);
      ReadStep(rows, m);
    }
  }

  /** Reading back a table the daemon wrote gives, for every peer, exactly
      the caps stored under its key, with the mode dropped. */
  lemma ReadBack(table: Table, rows: seq<(string, Row)>, peer: Vertex)
    requires AllCanonical(table) && Enumerates(rows, table)
    ensures GetLimits(rows).Ok?
    ensures peer in GetLimits(rows).value <==> HexEncode(peer) in table
    ensures peer in GetLimits(rows).value ==> GetLimits(rows).value[peer] == RowLimit(table[HexEncode(peer)])
  {
    ReadCanonicalRows(rows);
    var key := HexEncode(peer);
    if key in table {
      var i :| 0 <= i < |rows| && rows[i].0 == key;
      VertexRoundTrip(peer);
    }
  }

  /** Writing keeps every key in the daemon's own text form. */
  lemma UpdateKeepsCanonical(table: Table, peer: Vertex, limit: Limit)
    requires AllCanonical(table)
    ensures AllCanonical(UpdateLimit(table, peer, limit))
  {
    EncodedIsCanonical(peer);
  }

  /** Store-then-read round trip: a written limit reads back with its caps
      and mode 0, and a limit of two zeros reads back as no entry. */
  lemma UpdateThenRead(table: Table, peer: Vertex, limit: Limit, rows: seq<(string, Row)>)
    requires AllCanonical(table)
    requires Enumerates(rows, UpdateLimit(table, peer, limit))
    ensures GetLimits(rows).Ok?
    ensures limit.maxHourlyRate == 0 && limit.maxPending == 0 ==> peer !in GetLimits(rows).value
    ensures !(limit.maxHourlyRate == 0 && limit.maxPending == 0) ==>
      peer in GetLimits(rows).value &&
      GetLimits(rows).value[peer] == Limit(limit.maxHourlyRate, limit.maxPending, DaemonConfig.ModeFail)
  {
    UpdateKeepsCanonical(table, peer, limit);
    ReadBack(UpdateLimit(table, peer, limit), rows, peer);
  }
}
