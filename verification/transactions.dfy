/** The sales table as loaded at start-up (main.py lines 6-21): one record
    per transaction, the derived `hour` column, and the distinct values
    that become the filter domains. */
module Transactions {
  import opened Wrappers
  import opened Collections
  import TimeOfDay

  /** A transaction as the spreadsheet holds it (only the columns the
      dashboard reads). Money and ratings are exact decimals. */
  datatype Sale = Sale(
    city: string,
    customerType: string,
    gender: string,
    productLine: string,
    total: real,
    rating: real,
    time: string)

  /** A transaction with the derived `hour` column added; `None` is a
      missing hour (NaT). */
  datatype Row = Row(
    city: string,
    customerType: string,
    gender: string,
    productLine: string,
    total: real,
    rating: real,
    time: string,
    hour: Option<nat>)

  function WithHour(s: Sale, hour: Option<nat>): Row {
    Row(s.city, s.customerType, s.gender, s.productLine, s.total, s.rating, s.time, hour)
  }

  /** The hour column's value for a converted Time cell. */
  function HourOf(c: TimeOfDay.TimeCell): Option<nat> {
    if c.At? then Some(c.hour) else None
  }

  /** Adds the `hour` column: every row gets the hour of its time, or a
      missing hour for a missing-time string, and the whole load fails
      (`None`) if any time is neither. */
  function AddHourColumn(sales: seq<Sale>): (r: Option<seq<Row>>)
    ensures r.Some? <==> forall i :: 0 <= i < |sales| ==> !TimeOfDay.ConvertTime(sales[i].time).Unparsable?
    ensures r.Some? ==> |r.value| == |sales|
    ensures r.Some? ==> forall i :: 0 <= i < |sales| ==>
              && r.value[i] == WithHour(sales[i], r.value[i].hour)
              && (r.value[i].hour.None? <==> sales[i].time in TimeOfDay.NotATimeStrings)
              && (r.value[i].hour.Some? ==>
                    r.value[i].hour.value < 24
                    && TimeOfDay.ParseHour(sales[i].time) == Some(r.value[i].hour.value))
  {
    if |sales| == 0 then Some([])
    else
      var init := sales[..|sales| - 1];
      var s := sales[|sales| - 1];
      var rest := AddHourColumn(init);
      var c := TimeOfDay.ConvertTime(s.time);
      assert forall i :: 0 <= i < |init| ==> init[i] == sales[i];
      if rest.Some? && !c.Unparsable? then Some(rest.value + [WithHour(s, HourOf(c))])
      else None
  }

  function City(r: Row): string { r.city }
  function CustomerType(r: Row): string { r.customerType }
  function Gender(r: Row): string { r.gender }
  function ProductLine(r: Row): string { r.productLine }
  function Hour(r: Row): Option<nat> { r.hour }

  /** One column of the table, in row order. */
  function Column<K>(data: seq<Row>, key: Row -> K): (c: seq<K>)
    ensures |c| == |data|
    ensures forall i :: 0 <= i < |data| ==> c[i] == key(data[i])
  {
    seq(|data|, i requires 0 <= i < |data| => key(data[i]))
  }

  /** The distinct values of one column in order of first appearance:
      `list(data[column].unique())`. */
  function Domain<K(==)>(data: seq<Row>, key: Row -> K): (d: seq<K>)
    ensures Distinct(d)
    ensures forall i :: 0 <= i < |data| ==> key(data[i]) in d
    ensures forall j :: 0 <= j < |d| ==> exists i :: 0 <= i < |data| && key(data[i]) == d[j]
  {
    var c := Column(data, key);
    var d := Unique(c);
    assert forall j :: 0 <= j < |d| ==> d[j] in c;
    d
  }

  /** A domain holds every value the column takes, each once, and nothing
      else. */
  lemma DomainIsColumnValues<K>(data: seq<Row>, key: Row -> K)
    ensures forall i :: 0 <= i < |data| ==> key(data[i]) in Domain(data, key)
    ensures forall v :: v in Domain(data, key) ==> exists i :: 0 <= i < |data| && key(data[i]) == v
    ensures Distinct(Domain(data, key))
  {
    var c := Column(data, key);
    var d := Domain(data, key);
    forall v | v in d
      ensures exists i :: 0 <= i < |data| && key(data[i]) == v
    {
      var j :| 0 <= j < |d| && d[j] == v;
      assert d[j] in c;
      var i :| 0 <= i < |c| && c[i] == v;
      assert key(data[i]) == v;
    }
  }
}
