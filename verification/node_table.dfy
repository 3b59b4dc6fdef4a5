/** The node table's view model: the alias search, the ordered selection
    with row toggling and select-all, pagination, sort and column settings,
    and the text of each cell. */
module NodeTable {
  import opened Wrappers
  import opened WebTypes
  import Strings
  import NodeAlias
  import NodeTableSort

  // ---------------------------------------------------------------------
  // Alias search

  /** The lower-cased alias contains the lower-cased search text. */
  predicate AliasMatches(row: NodeLimit, search: string, lower: string -> string) {
    Strings.Includes(lower(row.alias), lower(search))
  }

  function KeepMatching(rows: seq<NodeLimit>, search: string, lower: string -> string): (r: seq<NodeLimit>)
    ensures forall x :: x in r <==> x in rows && AliasMatches(x, search, lower)
    ensures |r| <= |rows|
  {
    if |rows| == 0 then []
    else
      var rest := KeepMatching(rows[1..], search, lower);
      assert rows == [rows[0]] + rows[1..];
      if AliasMatches(rows[0], search, lower) then [rows[0]] + rest else rest
  }

  /** The rows the table shows for a search text: all of them for an empty
      search, otherwise exactly those whose alias contains the text. */
  function FilterByAlias(rows: seq<NodeLimit>, search: string, lower: string -> string): (r: seq<NodeLimit>)
    ensures search == "" ==> r == rows
    ensures search != "" ==> forall x :: x in r <==> x in rows && AliasMatches(x, search, lower)
    ensures |r| <= |rows|
  {
    if search == "" then rows else KeepMatching(rows, search, lower)
  }

  /** The search keeps the rows' original order: filtering a concatenation
      concatenates the filtered parts. */
  lemma {:induction false} FilterKeepsOrder(a: seq<NodeLimit>, b: seq<NodeLimit>, search: string, lower: string -> string)
    ensures FilterByAlias(a + b, search, lower) == FilterByAlias(a, search, lower) + FilterByAlias(b, search, lower)
  {
    if search != "" && |a| > 0 {
      assert (a + b)[0] == a[0];
      assert (a + b)[1..] == a[1..] + b;
      FilterKeepsOrder(a[1..], b, search, lower);
    } else if search != "" {
      assert a + b == b;
    }
  }

  // ---------------------------------------------------------------------
  // Selection

  /** No node id occurs twice. */
  predicate NoDup(s: seq<string>) {
    forall i, j :: 0 <= i < j < |s| ==> s[i] != s[j]
  }

  /** JavaScript `indexOf`: the first position of `x`, or -1. */
  function IndexOf(s: seq<string>, x: string): (i: int)
    ensures -1 <= i < |s|
    ensures i == -1 <==> x !in s
    ensures 0 <= i ==> s[i] == x && x !in s[..i]
  {
    if |s| == 0 then -1
    else if s[0] == x then 0
    else
      var k := IndexOf(s[1..], x);
      assert s == [s[0]] + s[1..];
      if k == -1 then -1
      else
        assert s[..k + 1] == [s[0]] + s[1..][..k];
        k + 1
  }

  /** `s` without any occurrence of `x`, in order. */
  function Without(s: seq<string>, x: string): (r: seq<string>)
    ensures forall y :: y in r <==> y in s && y != x
  {
    if |s| == 0 then []
    else
      assert s == [s[0]] + s[1..];
      (if s[0] == x then [] else [s[0]]) + Without(s[1..], x)
  }

  lemma {:induction false} WithoutAbsent(s: seq<string>, x: string)
    requires x !in s
    ensures Without(s, x) == s
  {
    if |s| > 0 {
      assert s == [s[0]] + s[1..];
      WithoutAbsent(s[1..], x);
    }
  }

  lemma {:induction false} WithoutAppend(a: seq<string>, b: seq<string>, x: string)
    ensures Without(a + b, x) == Without(a, x) + Without(b, x)
  {
    if |a| > 0 {
      assert (a + b)[0] == a[0];
      assert (a + b)[1..] == a[1..] + b;
      WithoutAppend(a[1..], b, x);
    } else {
      assert a + b == b;
    }
  }

  /** `handleClick`: an id not yet selected is appended; a selected id is
      cut out of the selection at its position. */
  function Toggle(sel: seq<string>, name: string): (r: seq<string>)
    ensures name !in sel ==> r == sel + [name]
    ensures name in sel ==> |r| == |sel| - 1
  {
    var i := IndexOf(sel, name);
    if i == -1 then sel + [name]
    else if i == 0 then sel[1..]
    else if i == |sel| - 1 then sel[..|sel| - 1]
    else sel[..i] + sel[i + 1..]
  }

  /** Every branch of `handleClick` for a selected id cuts it out at its
      position. */
  lemma ToggleCutsAt(sel: seq<string>, name: string)
    requires name in sel
    ensures var i := IndexOf(sel, name);
      Toggle(sel, name) == sel[..i] + sel[i + 1..]
  {
    var i := IndexOf(sel, name);
    if i == 0 {
      assert sel[..0] + sel[1..] == sel[1..];
    } else if i == |sel| - 1 {
      assert sel[i + 1..] == [];
    }
  }

  /** In a selection without duplicates, cutting out position `i` is
      removing the id there. */
  lemma CutIsWithout(sel: seq<string>, i: nat)
    requires NoDup(sel) && i < |sel|
    ensures Without(sel, sel[i]) == sel[..i] + sel[i + 1..]
  {
    OnlyAt(sel, i);
    assert sel == (sel[..i] + [sel[i]]) + sel[i + 1..];
    WithoutBetween(sel[..i], sel[i], sel[i + 1..]);
  }

  /** Removing an id that occurs once, between two parts without it,
      leaves the two parts joined. */
  lemma WithoutBetween(pre: seq<string>, name: string, post: seq<string>)
    requires name !in pre && name !in post
    ensures Without((pre + [name]) + post, name) == pre + post
  {
    WithoutAppend(pre + [name], post, name);
    WithoutAtEnd(pre, name);
    WithoutAbsent(post, name);
  }

  /** Removing an id from the end of a part without it leaves that part. */
  lemma WithoutAtEnd(pre: seq<string>, name: string)
    requires name !in pre
    ensures Without(pre + [name], name) == pre
  {
    WithoutAppend(pre, [name], name);
    WithoutOnly(name);
    WithoutAbsent(pre, name);
    assert pre + [] == pre;
  }

  lemma WithoutOnly(x: string)
    ensures Without([x], x) == []
  {
    assert [x][1..] == [];
  }

  /** In a selection without duplicates, the id at `i` occurs nowhere else. */
  lemma OnlyAt(sel: seq<string>, i: nat)
    requires NoDup(sel) && i < |sel|
    ensures sel[i] !in sel[..i] && sel[i] !in sel[i + 1..]
  {
    forall k | i + 1 <= k < |sel|
      ensures sel[k] != sel[i]
    {
    }
  }

  /** Cutting out one position keeps a selection free of duplicates. */
  lemma CutKeepsNoDup(sel: seq<string>, i: nat)
    requires NoDup(sel) && i < |sel|
    ensures NoDup(sel[..i] + sel[i + 1..])
  {
    var r := sel[..i] + sel[i + 1..];
    forall a, b | 0 <= a < b < |r|
      ensures r[a] != r[b]
    {
      var a', b' := if a < i then a else a + 1, if b < i then b else b + 1;
      assert r[a] == sel[a'] && r[b] == sel[b'];
    }
  }

  /** On a selection without duplicates, a click removes exactly the
      clicked id and keeps the others in order, or appends it. */
  lemma ToggleMeaning(sel: seq<string>, name: string)
    requires NoDup(sel)
    ensures NoDup(Toggle(sel, name))
    ensures forall y :: y in Toggle(sel, name) <==> (y in sel <==> y != name)
    ensures name in sel ==> Toggle(sel, name) == Without(sel, name)
  {
    if name !in sel {
      AppendKeepsNoDup(sel, name);
    } else {
      var i := IndexOf(sel, name);
      ToggleCutsAt(sel, name);
      CutIsWithout(sel, i);
      CutKeepsNoDup(sel, i);
      assert Toggle(sel, name) == Without(sel, name);
    }
  }

  /** Appending an id not yet selected keeps a selection free of
      duplicates. */
  lemma AppendKeepsNoDup(sel: seq<string>, name: string)
    requires NoDup(sel) && name !in sel
    ensures NoDup(sel + [name])
  {
    var r := sel + [name];
    forall a, b | 0 <= a < b < |r|
      ensures r[a] != r[b]
    {
      if b == |sel| {
        assert r[a] == sel[a] && sel[a] in sel;
      }
    }
  }

  /** Clicking an unselected row twice restores the selection. */
  lemma ToggleTwiceRestores(sel: seq<string>, name: string)
    requires name !in sel
    ensures Toggle(Toggle(sel, name), name) == sel
  {
    var r := sel + [name];
    assert r[..|sel|] == sel;
    assert IndexOf(r, name) == |sel|;
    ToggleCutsAt(r, name);
    assert r[|sel| + 1..] == [];
  }

  /** `handleSelectAllClick`: checking selects the ids of the filtered rows
      in their filtered order; unchecking clears the selection. */
  function SelectAll(filtered: seq<NodeLimit>, checked: bool): (r: seq<string>)
    ensures !checked ==> r == []
    ensures checked ==> |r| == |filtered| && forall i | 0 <= i < |r| :: r[i] == filtered[i].node
  {
    if checked then Nodes(filtered) else []
  }

  function Nodes(rows: seq<NodeLimit>): (r: seq<string>)
    ensures |r| == |rows| && forall i | 0 <= i < |r| :: r[i] == rows[i].node
  {
    if |rows| == 0 then [] else [rows[0].node] + Nodes(rows[1..])
  }

  /** The select-all box: indeterminate for a partial selection, checked
      for a full one. */
  datatype HeaderBox = HeaderBox(indeterminate: bool, checked: bool)

  function HeaderCheckbox(selected: seq<string>, filtered: seq<NodeLimit>): (r: HeaderBox)
    ensures r.indeterminate <==> 0 < |selected| < |filtered|
    ensures r.checked <==> 0 < |filtered| && |selected| == |filtered|
    ensures !(r.indeterminate && r.checked)
  {
    HeaderBox(0 < |selected| && |selected| < |filtered|, 0 < |filtered| && |selected| == |filtered|)
  }

  /** After select-all the box is checked (when there is a row), and after
      deselect-all it is clear; neither leaves it indeterminate. */
  lemma SelectAllThenHeader(filtered: seq<NodeLimit>, checked: bool)
    ensures var h := HeaderCheckbox(SelectAll(filtered, checked), filtered);
      !h.indeterminate && (h.checked <==> checked && |filtered| > 0)
  {
  }

  // ---------------------------------------------------------------------
  // Pagination

  /** The rows on page `page`: `sorted.slice(page * rpp, page * rpp + rpp)`. */
  function PageRows<T>(sorted: seq<T>, page: nat, rpp: nat): (r: seq<T>)
    ensures |r| <= rpp
    ensures forall x | x in r :: x in sorted
    ensures page * rpp + rpp <= |sorted| ==> |r| == rpp
    ensures |sorted| <= page * rpp ==> r == []
  {
    Strings.Slice(sorted, page * rpp, page * rpp + rpp)
  }

  /** Every row appears on exactly the page its position falls in, at the
      offset its position leaves within that page. */
  lemma RowOnItsPage<T>(sorted: seq<T>, rpp: nat, i: nat)
    requires 0 < rpp && i < |sorted|
    ensures i % rpp < |PageRows(sorted, i / rpp, rpp)|
    ensures PageRows(sorted, i / rpp, rpp)[i % rpp] == sorted[i]
  {
    var start, q := i / rpp * rpp, i % rpp;
    DivMod(i, rpp);
    assert start + q == i && q < rpp;
    var e := Strings.Min(start + rpp, |sorted|);
    assert PageRows(sorted, i / rpp, rpp) == sorted[start..e];
  }

  lemma DivMod(i: nat, d: nat)
    requires 0 < d
    ensures i / d * d + i % d == i && i % d < d
  {
  }

  // ---------------------------------------------------------------------
  // Table state

  datatype TableState = TableState(
    page: nat,
    rowsPerPage: nat,
    selected: seq<string>,
    search: string,
    order: Order,
    orderBy: ColumnId,
    columns: map<ColumnId, bool>)

  const AllColumns: seq<ColumnId> := [
    Alias, Node, Counter1hSuccess, Counter1hFail, Counter1hReject,
    Counter24hSuccess, Counter24hFail, Counter24hReject,
    PendingHtlcCount, QueueLen, LimitMaxPending, LimitMaxHourlyRate, LimitMode]

  /** The settings map starts with every column shown. */
  function InitialColumns(): (m: map<ColumnId, bool>)
    ensures forall c: ColumnId :: c in m && m[c]
  {
    EveryColumnListed();
    map c: ColumnId | c in AllColumns :: true
  }

  lemma EveryColumnListed()
    ensures forall c: ColumnId :: c in AllColumns
  {
    forall c: ColumnId
      ensures c in AllColumns
    {
      match c
      case Alias =>
      case Node =>
      case Counter1hSuccess =>
      case Counter1hFail =>
      case Counter1hReject =>
      case Counter24hSuccess =>
      case Counter24hFail =>
      case Counter24hReject =>
      case PendingHtlcCount =>
      case QueueLen =>
      case LimitMaxPending =>
      case LimitMaxHourlyRate =>
      case LimitMode =>
    }
  }

  function InitialTable(): (st: TableState)
    ensures st.page == 0 && st.rowsPerPage == 25 && st.selected == [] && st.search == ""
    ensures st.order == Asc && st.orderBy == Alias
    ensures forall c: ColumnId :: Shown(st.columns, c)
  {
    TableState(0, 25, [], "", Asc, Alias, InitialColumns())
  }

  /** `checkedSettings[id]`: a missing entry reads as hidden. */
  predicate Shown(columns: map<ColumnId, bool>, c: ColumnId) {
    c in columns && columns[c]
  }

  datatype TableEvent =
    | SearchChanged(text: string)
    | PageChanged(newPage: nat)
    | RowsPerPageChanged(rows: nat)
    | SortRequested(column: ColumnId)
    | ColumnToggled(toggled: ColumnId)
    | RowClicked(node: string)
    | SelectAllClicked(checked: bool)

  /** The direction after a sort request: only the current column while
      ascending turns descending. */
  function NextOrder(st: TableState, column: ColumnId): (o: Order)
    ensures o == Desc <==> st.orderBy == column && st.order == Asc
  {
    if st.orderBy == column && st.order == Asc then Desc else Asc
  }

  /** Every row the table lists, across all its pages: the rows matching
      the search, sorted by the current key. */
  function DisplayOrder(st: TableState, rows: seq<NodeLimit>, lower: string -> string): seq<NodeLimit> {
    NodeTableSort.SortRows(FilterByAlias(rows, st.search, lower), st.orderBy, st.order)
  }

  /** The fetched array as the last render left it. A render with no search
      sorts that array itself, in place, by the current key; a search sorts
      a filtered copy and leaves the array alone. */
  function RenderedOrder(st: TableState, rows: seq<NodeLimit>): seq<NodeLimit> {
    if st.search == "" then NodeTableSort.SortRows(rows, st.orderBy, st.order) else rows
  }

  /** The table's handlers. `rows` is the fetched array in its current
      order. Select-all maps the `limits` of the last render: the filtered
      rows (the array itself when there is no search), which that render
      sorted in place by the current key before the click could happen. */
  function TableStep(st: TableState, ev: TableEvent, rows: seq<NodeLimit>, lower: string -> string): (r: TableState)
    ensures ev.SearchChanged? ==> r == st.(page := 0, selected := [], search := ev.text)
    ensures ev.PageChanged? ==> r == st.(page := ev.newPage)
    ensures ev.RowsPerPageChanged? ==> r == st.(page := 0, rowsPerPage := ev.rows)
    ensures ev.SortRequested? ==> r == st.(order := NextOrder(st, ev.column), orderBy := ev.column)
    ensures ev.ColumnToggled? ==> r.columns.Keys == st.columns.Keys + {ev.toggled}
    ensures ev.ColumnToggled? ==> (Shown(r.columns, ev.toggled) <==> !Shown(st.columns, ev.toggled))
    ensures ev.ColumnToggled? ==> forall c | c != ev.toggled :: Shown(r.columns, c) == Shown(st.columns, c)
    ensures ev.ColumnToggled? ==> r == st.(columns := r.columns)
    ensures ev.RowClicked? ==> r == st.(selected := Toggle(st.selected, ev.node))
    ensures ev.SelectAllClicked? ==> r == st.(selected := SelectAll(DisplayOrder(st, rows, lower), ev.checked))
  {
    match ev
    case SearchChanged(text) => st.(page := 0, selected := [], search := text)
    case PageChanged(p) => st.(page := p)
    case RowsPerPageChanged(n) => st.(page := 0, rowsPerPage := n)
    case SortRequested(c) => st.(order := NextOrder(st, c), orderBy := c)
    case ColumnToggled(c) => st.(columns := st.columns[c := !Shown(st.columns, c)])
    case RowClicked(node) => st.(selected := Toggle(st.selected, node))
    case SelectAllClicked(checked) => st.(selected := SelectAll(DisplayOrder(st, rows, lower), checked))
  }

  /** Requesting the same column twice flips the direction twice: an
      ascending sort comes back ascending. */
  lemma SortRequestedTwice(st: TableState, c: ColumnId, rows: seq<NodeLimit>, lower: string -> string)
    requires st.orderBy == c && st.order == Asc
    ensures var once := TableStep(st, SortRequested(c), rows, lower);
      once.order == Desc && TableStep(once, SortRequested(c), rows, lower) == st
  {
  }

  /** Toggling a shown column twice restores the settings. */
  lemma ColumnToggledTwice(st: TableState, c: ColumnId, rows: seq<NodeLimit>, lower: string -> string)
    requires c in st.columns
    ensures TableStep(TableStep(st, ColumnToggled(c), rows, lower), ColumnToggled(c), rows, lower) == st
  {
    var once := TableStep(st, ColumnToggled(c), rows, lower);
    var twice := TableStep(once, ColumnToggled(c), rows, lower);
    assert twice.columns == st.columns;
  }

  /** The rows on screen: filtered, sorted by the current key, then paged. */
  function VisibleRows(st: TableState, rows: seq<NodeLimit>, lower: string -> string): (r: seq<NodeLimit>)
    ensures |r| <= st.rowsPerPage
    ensures forall x | x in r :: x in rows
    ensures st.search != "" ==> forall x | x in r :: AliasMatches(x, st.search, lower)
  {
    var filtered := FilterByAlias(rows, st.search, lower);
    var sorted := DisplayOrder(st, rows, lower);
    assert forall x | x in sorted :: x in filtered by {
      forall x | x in sorted
        ensures x in filtered
      {
        assert x in multiset(sorted);
      }
    }
    PageRows(sorted, st.page, st.rowsPerPage)
  }

  /** Rendering again shows the same rows: the array a render leaves behind
      is already in the order the next render sorts it into. */
  lemma RenderKeepsDisplay(st: TableState, rows: seq<NodeLimit>, lower: string -> string)
    ensures VisibleRows(st, RenderedOrder(st, rows), lower) == VisibleRows(st, rows, lower)
  {
    if st.search == "" {
      NodeTableSort.SortRowsIdempotent(rows, st.orderBy, st.order);
    }
  }

  /** Select-all selects every peer the table lists, in the order it lists
      them across all pages, whatever the search; the visible page is a
      slice of that order. */
  lemma SelectAllFollowsDisplay(st: TableState, rows: seq<NodeLimit>, lower: string -> string)
    ensures var sorted := NodeTableSort.SortRows(FilterByAlias(rows, st.search, lower), st.orderBy, st.order);
      TableStep(st, SelectAllClicked(true), rows, lower).selected == Nodes(sorted) &&
      VisibleRows(st, rows, lower) == PageRows(sorted, st.page, st.rowsPerPage)
    ensures var filtered := FilterByAlias(rows, st.search, lower);
      var sel := TableStep(st, SelectAllClicked(true), rows, lower).selected;
      |sel| == |filtered| &&
      (forall x | x in filtered :: x.node in sel) &&
      (forall i | 0 <= i < |sel| :: exists x | x in filtered :: sel[i] == x.node)
  {
    var filtered := FilterByAlias(rows, st.search, lower);
    var sorted := NodeTableSort.SortRows(filtered, st.orderBy, st.order);
    var sel := Nodes(sorted);
    forall x | x in filtered
      ensures x.node in sel
    {
      assert x in multiset(sorted);
      var i :| 0 <= i < |sorted| && sorted[i] == x;
      assert sel[i] == x.node;
    }
    forall i | 0 <= i < |sel|
      ensures exists x | x in filtered :: sel[i] == x.node
    {
      assert sorted[i] in multiset(filtered);
    }
  }

  /** A new search shows its first page, and nothing stays selected. */
  lemma SearchShowsFirstPage(st: TableState, text: string, rows: seq<NodeLimit>, lower: string -> string)
    ensures var r := TableStep(st, SearchChanged(text), rows, lower);
      r.page == 0 && r.selected == [] &&
      (r.rowsPerPage <= |FilterByAlias(rows, text, lower)| ==> |VisibleRows(r, rows, lower)| == r.rowsPerPage)
  {
    var r := TableStep(st, SearchChanged(text), rows, lower);
    var filtered := FilterByAlias(rows, text, lower);
    assert |NodeTableSort.SortRows(filtered, r.orderBy, r.order)| == |filtered|;
  }

  // ---------------------------------------------------------------------
  // Cells

  /** `defaultCellFormat`: the string "0" shows as a dash, any other value
      as itself. */
  function DefaultCellFormat(v: string): (r: string)
    ensures r == "-" <==> v == "0" || v == "-"
    ensures v != "0" ==> r == v
  {
    if v == "0" then "-" else v
  }

  /** The rate and pending cells. */
  function LimitNumberCell(row: NodeLimit, value: string, t: Translate): (r: string)
    ensures row.limit.None? ==> r == t("default")
    ensures row.limit.Some? && row.limit.value.mode == Block ==> r == "-"
    ensures row.limit.Some? && row.limit.value.mode != Block ==>
      (r == InfinityGlyph <==> value == UnlimitedValue || value == InfinityGlyph)
    ensures row.limit.Some? && row.limit.value.mode != Block && value != UnlimitedValue ==> r == value
  {
    if row.limit.None? then t("default")
    else if row.limit.value.mode == Block then "-"
    else if value == UnlimitedValue then InfinityGlyph
    else value
  }

  /** The mode cell. */
  function LimitModeCell(row: NodeLimit, t: Translate): (r: string)
    ensures row.limit.None? ==> r == t("default")
    ensures row.limit.Some? && row.limit.value.mode == Block ==> r == t(ModeValue(Block))
    ensures row.limit.Some? && row.limit.value.mode != Block ==>
      r == (if row.limit.value.maxHourlyRate == UnlimitedValue && row.limit.value.maxPending == UnlimitedValue
            then "-" else t(ModeValue(row.limit.value.mode)))
  {
    match row.limit
    case None => t("default")
    case Some(l) =>
      if l.mode == Block then t(ModeValue(l.mode))
      else if l.maxHourlyRate == UnlimitedValue && l.maxPending == UnlimitedValue then "-"
      else t(ModeValue(l.mode))
  }

  /** The columns that have a definition, in display order; `node` has
      none and is never drawn. */
  const TableColumns: seq<ColumnId> := [
    Alias, Counter1hSuccess, Counter1hFail, Counter1hReject,
    Counter24hSuccess, Counter24hFail, Counter24hReject,
    PendingHtlcCount, QueueLen, LimitMaxHourlyRate, LimitMaxPending, LimitMode]

  /** One cell's text. A count shows as its decimal text, a dash for
      zero; the limit cells follow their own formats. */
  function CellText(row: NodeLimit, c: ColumnId, t: Translate): (r: string)
    requires c != Node
    ensures c == Alias ==> r == NodeAlias.Label(Some(row.alias), row)
    ensures NodeTableSort.IsCountColumn(c) ==> (r == "-" <==> NodeTableSort.Count(row, c) == 0)
    ensures NodeTableSort.IsCountColumn(c) && NodeTableSort.Count(row, c) != 0 ==>
      r == Strings.NatToString(NodeTableSort.Count(row, c))
    ensures NodeTableSort.IsLimitColumn(c) && row.limit.None? ==> r == t("default")
    ensures c == LimitMaxHourlyRate && row.limit.Some? ==> r == LimitNumberCell(row, row.limit.value.maxHourlyRate, t)
    ensures c == LimitMaxPending && row.limit.Some? ==> r == LimitNumberCell(row, row.limit.value.maxPending, t)
    ensures c == LimitMode ==> r == LimitModeCell(row, t)
  {
    match c
    case Alias => NodeAlias.Label(Some(row.alias), row)
    case LimitMaxHourlyRate =>
      LimitNumberCell(row, if row.limit.Some? then row.limit.value.maxHourlyRate else "", t)
    case LimitMaxPending =>
      LimitNumberCell(row, if row.limit.Some? then row.limit.value.maxPending else "", t)
    case LimitMode => LimitModeCell(row, t)
    case _ => DefaultCellFormat(NodeTableSort.SortValue(row, c))
  }

  /** The shown columns among `cols`, keeping their relative order. */
  function ShownColumns(cols: seq<ColumnId>, columns: map<ColumnId, bool>): (r: seq<ColumnId>)
    ensures forall c :: c in r <==> c in cols && Shown(columns, c)
    ensures |r| <= |cols|
    ensures forall i, j | 0 <= i < j < |r| :: Before(cols, r[i], r[j])
  {
    if |cols| == 0 then []
    else
      assert cols == [cols[0]] + cols[1..];
      var rest := ShownColumns(cols[1..], columns);
      BeforeInTail(cols, rest);
      if Shown(columns, cols[0]) then
        HeadBeforeTail(cols, rest);
        [cols[0]] + rest
      else rest
  }

  /** `a` occurs in `cols` at an earlier position than `b`. */
  ghost predicate Before(cols: seq<ColumnId>, a: ColumnId, b: ColumnId) {
    exists x, y | 0 <= x < y < |cols| :: cols[x] == a && cols[y] == b
  }

  lemma BeforeInTail(cols: seq<ColumnId>, rest: seq<ColumnId>)
    requires |cols| > 0
    requires forall i, j | 0 <= i < j < |rest| :: Before(cols[1..], rest[i], rest[j])
    ensures forall i, j | 0 <= i < j < |rest| :: Before(cols, rest[i], rest[j])
  {
    forall i, j | 0 <= i < j < |rest|
      ensures Before(cols, rest[i], rest[j])
    {
      var x, y :| 0 <= x < y < |cols[1..]| && cols[1..][x] == rest[i] && cols[1..][y] == rest[j];
      assert cols[x + 1] == rest[i] && cols[y + 1] == rest[j];
    }
  }

  lemma HeadBeforeTail(cols: seq<ColumnId>, rest: seq<ColumnId>)
    requires |cols| > 0
    requires forall c | c in rest :: c in cols[1..]
    requires forall i, j | 0 <= i < j < |rest| :: Before(cols, rest[i], rest[j])
    ensures forall i, j | 0 <= i < j < |[cols[0]] + rest| :: Before(cols, ([cols[0]] + rest)[i], ([cols[0]] + rest)[j])
  {
    var r := [cols[0]] + rest;
    forall i, j | 0 <= i < j < |r|
      ensures Before(cols, r[i], r[j])
    {
      if i == 0 {
        assert r[j] == rest[j - 1] && r[j] in cols[1..];
        var y :| 0 <= y < |cols[1..]| && cols[1..][y] == r[j];
        assert cols[y + 1] == r[j];
      } else {
        assert r[i] == rest[i - 1] && r[j] == rest[j - 1];
      }
    }
  }

  /** The cells of one row: one per shown column that has a definition, in
      column order. */
  function RowCells(row: NodeLimit, columns: map<ColumnId, bool>, t: Translate): (r: seq<string>)
    ensures |r| == |ShownColumns(TableColumns, columns)|
    ensures forall i | 0 <= i < |r| ::
      (ShownColumns(TableColumns, columns)[i] != Node && r[i] == CellText(row, ShownColumns(TableColumns, columns)[i], t))
  {
    var cols := ShownColumns(TableColumns, columns);
    assert Node !in TableColumns;
    assert forall i | 0 <= i < |cols| :: cols[i] in cols;
    seq(|cols|, i requires 0 <= i < |cols| => CellText(row, cols[i], t))
  }

  /** With every column shown, a row has twelve cells: the node id is never
      a cell of its own. */
  lemma InitialRowHasTwelveCells(row: NodeLimit, t: Translate)
    ensures |RowCells(row, InitialTable().columns, t)| == 12
  {
    var m := InitialTable().columns;
    assert ShownColumns(TableColumns, m) == TableColumns by {
      assert forall c :: Shown(m, c);
      ShownAll(TableColumns, m);
    }
  }

  lemma {:induction false} ShownAll(cols: seq<ColumnId>, columns: map<ColumnId, bool>)
    requires forall c :: Shown(columns, c)
    ensures ShownColumns(cols, columns) == cols
  {
    if |cols| > 0 {
      ShownAll(cols[1..], columns);
      assert cols == [cols[0]] + cols[1..];
    }
  }
}
