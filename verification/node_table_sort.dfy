/** The node table's sort (`sortObjectsByKey`): field lookup by column path
    with a "Default" fallback, and the mixed numeric/text comparator that
    the stable sort is run with. */
module NodeTableSort {
  import opened Wrappers
  import opened WebTypes
  import Strings
  import StableSort

  predicate IsLimitColumn(c: ColumnId) {
    c == LimitMaxPending || c == LimitMaxHourlyRate || c == LimitMode
  }

  /** The columns that show one of the peer's counts. */
  predicate IsCountColumn(c: ColumnId) {
    !(c == Alias || c == Node || IsLimitColumn(c))
  }

  /** The count a counting column shows. */
  function Count(row: NodeLimit, c: ColumnId): nat
    requires IsCountColumn(c)
  {
    match c
    case Counter1hSuccess => row.counter1h.success
    case Counter1hFail => row.counter1h.fail
    case Counter1hReject => row.counter1h.reject
    case Counter24hSuccess => row.counter24h.success
    case Counter24hFail => row.counter24h.fail
    case Counter24hReject => row.counter24h.reject
    case PendingHtlcCount => row.pendingHtlcCount
    case QueueLen => row.queueLen
  }

  /** lodash `get(row, path)` for a column path. Every field arrives as a
      string, counts as their decimal text; only the nested `limit.*` paths
      can be missing, and only when the peer has no limit of its own. */
  function Get(row: NodeLimit, col: ColumnId): (r: Option<string>)
    ensures r.None? <==> IsLimitColumn(col) && row.limit.None?
    ensures col == Alias ==> r == Some(row.alias)
    ensures col == Node ==> r == Some(row.node)
    ensures IsCountColumn(col) ==> r.Some? && Strings.ParseLeadingNat(r.value) == Some(Count(row, col))
  {
    match col
    case Alias => Some(row.alias)
    case Node => Some(row.node)
    case LimitMaxPending =>
      if row.limit.Some? then Some(row.limit.value.maxPending) else None
    case LimitMaxHourlyRate =>
      if row.limit.Some? then Some(row.limit.value.maxHourlyRate) else None
    case LimitMode =>
      if row.limit.Some? then Some(ModeValue(row.limit.value.mode)) else None
    case _ =>
      Strings.ParseRendered(Count(row, col));
      Some(Strings.NatToString(Count(row, col)))
  }

  /** What a row without a limit of its own sorts by. */
  const DefaultSentinel := "Default"

  /** `get(row, key, 'Default')`. */
  function SortValue(row: NodeLimit, key: ColumnId): (v: string)
    ensures Get(row, key).Some? ==> v == Get(row, key).value
    ensures Get(row, key).None? ==> v == DefaultSentinel
  {
    Get(row, key).GetOr(DefaultSentinel)
  }

  /** A row without a limit of its own sorts by a value that is not a
      number, so it is never mistaken for a capped one. */
  lemma DefaultIsNotNumber(row: NodeLimit, key: ColumnId)
    requires IsLimitColumn(key) && row.limit.None?
    ensures Strings.ParseLeadingNat(SortValue(row, key)).None?
  {
    assert SortValue(row, key)[0] == 'D';
  }

  /** The comparator of `sortObjectsByKey` before the direction is applied:
      numbers (as `parseFloat` reads them) by difference, numbers before
      text, text by ordinal order. */
  function CompareValues(a: string, b: string): (c: int)
    ensures Strings.ParseLeadingNat(a).Some? && Strings.ParseLeadingNat(b).Some? ==>
      c == Strings.ParseLeadingNat(a).value - Strings.ParseLeadingNat(b).value
    ensures Strings.ParseLeadingNat(a).Some? && Strings.ParseLeadingNat(b).None? ==> c < 0
    ensures Strings.ParseLeadingNat(a).None? && Strings.ParseLeadingNat(b).Some? ==> c > 0
    ensures Strings.ParseLeadingNat(a).None? && Strings.ParseLeadingNat(b).None? ==>
      (c < 0 <==> Strings.LexCompare(a, b) < 0) && (c == 0 <==> a == b)
  {
    var pa := Strings.ParseLeadingNat(a);
    var pb := Strings.ParseLeadingNat(b);
    if pa.Some? && pb.Some? then pa.value - pb.value
    else if pa.Some? then -1
    else if pb.Some? then 1
    else Strings.LexCompare(a, b)
  }

  /** The comparator handed to `Array.prototype.sort`: descending negates. */
  function RowCompare(a: NodeLimit, b: NodeLimit, key: ColumnId, dir: Order): (c: int)
    ensures dir == Asc ==> c == CompareValues(SortValue(a, key), SortValue(b, key))
    ensures dir == Desc ==> c == -CompareValues(SortValue(a, key), SortValue(b, key))
  {
    var c := CompareValues(SortValue(a, key), SortValue(b, key));
    if dir == Asc then c else -c
  }

  lemma CompareAntisymmetric(a: string, b: string)
    ensures CompareValues(a, b) == -CompareValues(b, a)
  {
    if Strings.ParseLeadingNat(a).None? && Strings.ParseLeadingNat(b).None? {
      Strings.LexCompareAntisymmetric(a, b);
    }
  }

  lemma CompareTransitive(a: string, b: string, c: string)
    requires CompareValues(a, b) <= 0 && CompareValues(b, c) <= 0
    ensures CompareValues(a, c) <= 0
  {
    var pa, pb, pc := Strings.ParseLeadingNat(a), Strings.ParseLeadingNat(b), Strings.ParseLeadingNat(c);
    if pa.None? && pb.None? && pc.None? {
      Strings.LexCompareTransitive(a, b, c);
    }
  }

  /** Swapping the arguments negates the comparison, in either direction. */
  lemma RowAntisymmetric(a: NodeLimit, b: NodeLimit, key: ColumnId, dir: Order)
    ensures RowCompare(a, b, key, dir) == -RowCompare(b, a, key, dir)
  {
    CompareAntisymmetric(SortValue(a, key), SortValue(b, key));
  }

  /** "Sorts no later than" is transitive, in either direction. */
  lemma RowTransitive(a: NodeLimit, b: NodeLimit, c: NodeLimit, key: ColumnId, dir: Order)
    requires RowCompare(a, b, key, dir) <= 0 && RowCompare(b, c, key, dir) <= 0
    ensures RowCompare(a, c, key, dir) <= 0
  {
    var va, vb, vc := SortValue(a, key), SortValue(b, key), SortValue(c, key);
    if dir == Asc {
      CompareTransitive(va, vb, vc);
    } else {
      CompareAntisymmetric(va, vb);
      CompareAntisymmetric(vb, vc);
      CompareAntisymmetric(va, vc);
      CompareTransitive(vc, vb, va);
    }
  }

  /** The comparator as a function value, as `sortObjectsByKey` hands it on. */
  function RowOrder(key: ColumnId, dir: Order): (NodeLimit, NodeLimit) -> int {
    (a, b) => RowCompare(a, b, key, dir)
  }

  lemma RowOrderIsPreorder(key: ColumnId, dir: Order)
    ensures StableSort.IsPreorder(RowOrder(key, dir))
  {
    var cmp := RowOrder(key, dir);
    forall a, b
      ensures cmp(a, b) == -cmp(b, a)
    {
      RowAntisymmetric(a, b, key, dir);
    }
    forall a, b, c | cmp(a, b) <= 0 && cmp(b, c) <= 0
      ensures cmp(a, c) <= 0
    {
      RowTransitive(a, b, c, key, dir);
    }
  }

  /** `sortObjectsByKey(rows, key, dir)`: the same rows, ordered by the
      comparator, with tied rows kept in their original order. */
  function SortRows(rows: seq<NodeLimit>, key: ColumnId, dir: Order): (r: seq<NodeLimit>)
    ensures multiset(r) == multiset(rows)
    ensures |r| == |rows|
    ensures StableSort.Ordered(r, RowOrder(key, dir))
    ensures forall p :: StableSort.TiedWith(r, p, RowOrder(key, dir)) == StableSort.TiedWith(rows, p, RowOrder(key, dir))
  {
    RowOrderIsPreorder(key, dir);
    var r := StableSort.Sort(rows, RowOrder(key, dir));
    assert forall p :: StableSort.TiedWith(r, p, RowOrder(key, dir)) == StableSort.TiedWith(rows, p, RowOrder(key, dir)) by {
      forall p
        ensures StableSort.TiedWith(r, p, RowOrder(key, dir)) == StableSort.TiedWith(rows, p, RowOrder(key, dir))
      {
        StableSort.SortStable(rows, p, RowOrder(key, dir));
      }
    }
    r
  }

  /** Sorting ascending puts rows whose values parse as numbers in numeric
      order, and before every row whose value does not parse. */
  lemma NumbersAscendFirst(rows: seq<NodeLimit>, key: ColumnId, i: nat, j: nat)
    requires i < j < |rows|
    ensures var s := SortRows(rows, key, Asc);
      var vi, vj := Strings.ParseLeadingNat(SortValue(s[i], key)), Strings.ParseLeadingNat(SortValue(s[j], key));
      && (vi.Some? && vj.Some? ==> vi.value <= vj.value)
      && (vi.None? ==> vj.None?)
  {
    var s := SortRows(rows, key, Asc);
    assert RowOrder(key, Asc)(s[i], s[j]) <= 0;
  }

  /** Sorting a limit column ascending lists peers without a limit of their
      own ("Default") after every peer whose value is a number. */
  lemma DefaultRowsAfterNumbers(rows: seq<NodeLimit>, key: ColumnId, i: nat, j: nat)
    requires IsLimitColumn(key) && i < j < |rows|
    ensures var s := SortRows(rows, key, Asc);
      s[i].limit.None? ==> Strings.ParseLeadingNat(SortValue(s[j], key)).None?
  {
    var s := SortRows(rows, key, Asc);
    assert RowOrder(key, Asc)(s[i], s[j]) <= 0;
    if s[i].limit.None? {
      DefaultIsNotNumber(s[i], key);
    }
  }

  /** Sorting a counting column ascending orders the rows by that count. */
  lemma CountsAscend(rows: seq<NodeLimit>, key: ColumnId, i: nat, j: nat)
    requires IsCountColumn(key) && i < j < |rows|
    ensures var s := SortRows(rows, key, Asc);
      Count(s[i], key) <= Count(s[j], key)
  {
    NumbersAscendFirst(rows, key, i, j);
  }

  /** Sorting rows that are already sorted the same way changes nothing, as
      happens when the table re-sorts the array it sorted on the last
      render. */
  lemma SortRowsIdempotent(rows: seq<NodeLimit>, key: ColumnId, dir: Order)
    ensures SortRows(SortRows(rows, key, dir), key, dir) == SortRows(rows, key, dir)
  {
    RowOrderIsPreorder(key, dir);
    StableSort.SortIdempotent(rows, RowOrder(key, dir));
  }
}
