/** The dashboard's filter-and-aggregate step (`filter`, main.py lines
    45-67), its guarded state update (`on_filter`, main.py lines 31-42) and
    the start-up state (main.py lines 148-150). */
module Dashboard {
  import opened Wrappers
  import opened Collections
  import opened Transactions
  import opened Grouping

  /** The three multi-select values: the cities, customer types and
      genders currently chosen. */
  datatype Selection = Selection(
    cities: seq<string>,
    customerTypes: seq<string>,
    genders: seq<string>)

  /** The row-wise mask: City, Customer_type and Gender are each `isin`
      their selection. */
  predicate Matches(r: Row, sel: Selection) {
    && r.city in sel.cities
    && r.customerType in sel.customerTypes
    && r.gender in sel.genders
  }

  /** Boolean-mask selection: the rows the mask keeps, in table order. */
  function FilterRows(data: seq<Row>, sel: Selection): (f: seq<Row>)
    ensures forall r :: r in f <==> r in data && Matches(r, sel)
    ensures |f| <= |data|
  {
    if |data| == 0 then []
    else
      var init := data[..|data| - 1];
      var last := data[|data| - 1];
      assert data == init + [last];
      var f := FilterRows(init, sel);
      if Matches(last, sel) then f + [last] else f
  }

  /** The positions at which the mask is true, ascending. */
  function MatchIndices(data: seq<Row>, sel: Selection): (idx: seq<nat>)
    ensures forall k :: 0 <= k < |idx| ==> idx[k] < |data| && Matches(data[idx[k]], sel)
    ensures forall k, l :: 0 <= k < l < |idx| ==> idx[k] < idx[l]
    ensures forall i :: 0 <= i < |data| && Matches(data[i], sel) ==> i in idx
  {
    if |data| == 0 then []
    else
      var init := data[..|data| - 1];
      var idx := MatchIndices(init, sel);
      if Matches(data[|data| - 1], sel) then idx + [|data| - 1] else idx
  }

  /** The filtered rows are exactly the rows at the mask's true positions,
      in increasing position order: the filter keeps the table's order and
      drops nothing that matches. */
  lemma {:induction false} FilterKeepsOrder(data: seq<Row>, sel: Selection)
    ensures |FilterRows(data, sel)| == |MatchIndices(data, sel)|
    ensures forall k :: 0 <= k < |FilterRows(data, sel)| ==>
              FilterRows(data, sel)[k] == data[MatchIndices(data, sel)[k]]
  {
    if |data| > 0 {
      var init := data[..|data| - 1];
      var last := data[|data| - 1];
      FilterKeepsOrder(init, sel);
      assert data == init + [last];
      GatherSnoc(FilterRows(init, sel), MatchIndices(init, sel), init, last, Matches(last, sel));
    }
  }

  /** One step of the induction above, on plain sequences: if `f` gathers
      `xs` at the positions `idx`, then appending `x` to `xs` (and to `f`,
      when kept, with its position to `idx`) preserves that. */
  lemma GatherSnoc(f: seq<Row>, idx: seq<nat>, xs: seq<Row>, x: Row, keep: bool)
    requires |f| == |idx|
    requires forall k :: 0 <= k < |idx| ==> idx[k] < |xs|
    requires forall k :: 0 <= k < |f| ==> f[k] == xs[idx[k]]
    ensures var f' := if keep then f + [x] else f;
            var idx' := if keep then idx + [|xs|] else idx;
            && |f'| == |idx'|
            && forall k :: 0 <= k < |f'| ==> idx'[k] < |xs + [x]| && f'[k] == (xs + [x])[idx'[k]]
  {
  }

  /** When every row matches, the filter returns the table unchanged. */
  lemma {:induction false} FilterAllMatching(data: seq<Row>, sel: Selection)
    requires forall i :: 0 <= i < |data| ==> Matches(data[i], sel)
    ensures FilterRows(data, sel) == data
  {
    if |data| > 0 {
      FilterAllMatching(data[..|data| - 1], sel);
      assert data == data[..|data| - 1] + [data[|data| - 1]];
    }
  }

  /** Orders product-line entries by their summed Total. */
  function TotalRank(e: Entry<string>): real {
    e.total
  }

  /** Orders hour entries by their hour. */
  function HourRank(e: Entry<nat>): real {
    e.key as real
  }

  /** Total grouped by Product line and sorted ascending by the sums
      (main.py lines 53-59). */
  function ProductLineTable(rows: seq<Row>): (t: seq<Entry<string>>)
    ensures forall i, j :: 0 <= i < j < |t| ==> t[i].total <= t[j].total
    ensures DistinctKeys(t)
    ensures KeySet(t) == KeysOf(rows, ProductLine)
    ensures forall e :: e in t ==> e.total == SumWhere(rows, ProductLine, e.key)
    ensures TableSum(t) == Sum(rows)
    ensures multiset(t) == multiset(GroupSum(rows, ProductLine))
  {
    var g := GroupSum(rows, ProductLine);
    var t := SortBy(g, TotalRank);
    GroupSumConserves(rows, ProductLine);
    GroupSumEntries(rows, ProductLine);
    SortBySum(g, TotalRank);
    SortByKeys(g, TotalRank);
    SameEntriesSameKeys(t, g);
    assert forall i, j :: 0 <= i < j < |t| ==> TotalRank(t[i]) <= TotalRank(t[j]);
    t
  }

  /** The rows whose hour is known: grouping by hour drops the rows whose
      key is missing. */
  function Timed(rows: seq<Row>): (ts: seq<Row>)
    ensures forall r :: r in ts <==> r in rows && r.hour.Some?
  {
    if |rows| == 0 then []
    else
      var init := rows[..|rows| - 1];
      var last := rows[|rows| - 1];
      assert rows == init + [last];
      if last.hour.Some? then Timed(init) + [last] else Timed(init)
  }

  /** The hour of a row whose hour is known. */
  function ClockHour(r: Row): nat {
    if r.hour.Some? then r.hour.value else 0
  }

  /** The known hours the rows take. */
  function HoursPresent(rows: seq<Row>): set<nat> {
    set r | r in rows && r.hour.Some? :: r.hour.value
  }

  /** Summing the timed rows by clock hour is summing all rows whose hour
      is that hour. */
  lemma {:induction false} TimedSumWhere(rows: seq<Row>, h: nat)
    ensures SumWhere(Timed(rows), ClockHour, h) == SumWhere(rows, Hour, Some(h))
  {
    if |rows| > 0 {
      var init := rows[..|rows| - 1];
      var last := rows[|rows| - 1];
      TimedSumWhere(init, h);
      if last.hour.Some? {
        var ts := Timed(init) + [last];
        assert ts[..|ts| - 1] == Timed(init);
      }
    }
  }

  /** Total grouped by hour, in ascending hour order, rows with a missing
      hour left out (main.py lines 62-65). */
  function HourTable(rows: seq<Row>): (t: seq<Entry<nat>>)
    ensures forall i, j :: 0 <= i < j < |t| ==> t[i].key < t[j].key
    ensures KeySet(t) == HoursPresent(rows)
    ensures forall e :: e in t ==> e.total == SumWhere(rows, Hour, Some(e.key))
    ensures TableSum(t) == Sum(Timed(rows))
  {
    var ts := Timed(rows);
    var g := GroupSum(ts, ClockHour);
    var t := SortBy(g, HourRank);
    GroupSumConserves(ts, ClockHour);
    GroupSumEntries(ts, ClockHour);
    SortBySum(g, HourRank);
    SortByKeys(g, HourRank);
    SameEntriesSameKeys(t, g);
    HoursAscending(t);
    assert KeysOf(ts, ClockHour) == HoursPresent(rows);
    forall e | e in t ensures e.total == SumWhere(rows, Hour, Some(e.key)) {
      TimedSumWhere(rows, e.key);
    }
    t
  }

  /** When every row has a known hour, the hour table's totals add up to
      the total of all rows. */
  lemma HourTableConserves(rows: seq<Row>)
    requires forall i :: 0 <= i < |rows| ==> rows[i].hour.Some?
    ensures TableSum(HourTable(rows)) == Sum(rows)
  {
    AllTimed(rows);
  }

  lemma {:induction false} AllTimed(rows: seq<Row>)
    requires forall i :: 0 <= i < |rows| ==> rows[i].hour.Some?
    ensures Timed(rows) == rows
  {
    if |rows| > 0 {
      AllTimed(rows[..|rows| - 1]);
      assert rows == rows[..|rows| - 1] + [rows[|rows| - 1]];
    }
  }

  /** A table sorted by hour with one entry per hour has strictly
      ascending hours. */
  lemma HoursAscending(t: seq<Entry<nat>>)
    requires SortedBy(t, HourRank) && DistinctKeys(t)
    ensures forall i, j :: 0 <= i < j < |t| ==> t[i].key < t[j].key
  {
    forall i, j | 0 <= i < j < |t| ensures t[i].key < t[j].key {
      assert HourRank(t[i]) <= HourRank(t[j]);
    }
  }

  /** What `filter` returns: the filtered rows and the two tables. */
  datatype Results = Results(
    filtered: seq<Row>,
    byProductLine: seq<Entry<string>>,
    byHour: seq<Entry<nat>>)

  function Filter(data: seq<Row>, sel: Selection): (res: Results)
    ensures forall r :: r in res.filtered <==> r in data && Matches(r, sel)
    ensures Coherent(data, res)
  {
    var f := FilterRows(data, sel);
    Results(f, ProductLineTable(f), HourTable(f))
  }

  /** The results are drawn from `data` and both tables are derived from
      the filtered rows they sit beside. */
  predicate Coherent(data: seq<Row>, res: Results) {
    && (forall r :: r in res.filtered ==> r in data)
    && res.byProductLine == ProductLineTable(res.filtered)
    && res.byHour == HourTable(res.filtered)
  }

  /** The session state `on_filter` reads and writes. */
  datatype State = State(selection: Selection, results: Results)

  /** A user-visible notification raised through `notify`. */
  datatype Notification = Notification(kind: string, message: string)

  const NoResults: Notification := Notification("Error", "No results found. Check the filters.")

  /** The state after a filter event, and the notification it raised. */
  datatype Update = Update(state: State, notice: Option<Notification>)

  predicate HasEmptySelection(sel: Selection) {
    |sel.cities| == 0 || |sel.customerTypes| == 0 || |sel.genders| == 0
  }

  /** A filter event: with any selection empty it raises the error
      notification and leaves the state alone; otherwise it replaces all
      three results with those of the current selection. */
  function OnFilter(data: seq<Row>, st: State): (u: Update)
    ensures u.notice.Some? <==> HasEmptySelection(st.selection)
    ensures u.notice.Some? ==> u.notice.value == NoResults && u.state == st
    ensures u.state.selection == st.selection
    ensures u.notice.None? ==> u.state.results == Filter(data, st.selection)
  {
    if HasEmptySelection(st.selection) then Update(st, Some(NoResults))
    else Update(State(st.selection, Filter(data, st.selection)), None)
  }

  /** Handling the same selection twice leaves the same state as handling
      it once. */
  lemma OnFilterIdempotent(data: seq<Row>, st: State)
    ensures var once := OnFilter(data, st);
            var twice := OnFilter(data, once.state);
            twice.state == once.state && twice.notice == once.notice
  {
  }

  /** Every filter event keeps the results coherent with the data. */
  lemma OnFilterKeepsCoherent(data: seq<Row>, st: State)
    requires Coherent(data, st.results)
    ensures Coherent(data, OnFilter(data, st).state.results)
  {
  }

  /** Every selection value drawn from the column domains. */
  function FullSelection(data: seq<Row>): Selection {
    Selection(Domain(data, City), Domain(data, CustomerType), Domain(data, Gender))
  }

  /** With each selection its full domain, the filter keeps every row. */
  lemma FullSelectionKeepsAll(data: seq<Row>)
    ensures FilterRows(data, FullSelection(data)) == data
  {
    DomainIsColumnValues(data, City);
    DomainIsColumnValues(data, CustomerType);
    DomainIsColumnValues(data, Gender);
    FilterAllMatching(data, FullSelection(data));
  }

  /** The state the dashboard starts in: every value selected and the
      results computed from it. */
  function InitialState(data: seq<Row>): (s: State)
    ensures s.selection == FullSelection(data)
    ensures s.results.filtered == data
    ensures Coherent(data, s.results)
  {
    FullSelectionKeepsAll(data);
    State(FullSelection(data), Filter(data, FullSelection(data)))
  }

  /** The start-up state shows every row, with both tables derived from
      them. */
  lemma InitialStateShowsAll(data: seq<Row>)
    ensures InitialState(data).results.filtered == data
    ensures Coherent(data, InitialState(data).results)
  {
    FullSelectionKeepsAll(data);
  }

  /** The start-up selection has no empty part exactly when the table has
      rows. */
  lemma InitialSelectionNonEmpty(data: seq<Row>)
    ensures !HasEmptySelection(InitialState(data).selection) <==> |data| > 0
  {
    var sel := FullSelection(data);
    if |data| > 0 {
      DomainIsColumnValues(data, City);
      DomainIsColumnValues(data, CustomerType);
      DomainIsColumnValues(data, Gender);
      assert City(data[0]) in sel.cities;
      assert CustomerType(data[0]) in sel.customerTypes;
      assert Gender(data[0]) in sel.genders;
    }
  }

  /** Selecting one city and every customer type and gender gives total
      sales equal to the sum of Total over that city's rows. */
  lemma SingleCitySales(data: seq<Row>, city: string)
    ensures Sum(FilterRows(data, Selection([city], Domain(data, CustomerType), Domain(data, Gender))))
            == SumWhere(data, City, city)
  {
    DomainIsColumnValues(data, CustomerType);
    DomainIsColumnValues(data, Gender);
    CitySum(data, Selection([city], Domain(data, CustomerType), Domain(data, Gender)), city);
  }

  lemma {:induction false} CitySum(data: seq<Row>, sel: Selection, city: string)
    requires sel.cities == [city]
    requires forall i :: 0 <= i < |data| ==>
               data[i].customerType in sel.customerTypes && data[i].gender in sel.genders
    ensures Sum(FilterRows(data, sel)) == SumWhere(data, City, city)
  {
    if |data| > 0 {
      var init := data[..|data| - 1];
      CitySum(init, sel, city);
      var f := FilterRows(init, sel);
      assert (f + [data[|data| - 1]])[..|f|] == f;
    }
  }
}
