/** The rolling view: the first i rows of the table, then only the rows no older
    than WindowSeconds before the latest timestamp among them. */
module Window {
  import opened Telemetry

  /** Width of the rolling view, in seconds. */
  const WindowSeconds: int := 120

  datatype Option<T> = None | Some(value: T)

  /** The latest timestamp of a non-empty batch. */
  function MaxTimestamp(rows: seq<Row>): (t: int)
    requires |rows| > 0
    ensures exists k :: 0 <= k < |rows| && rows[k].timestamp == t
    ensures forall k :: 0 <= k < |rows| ==> rows[k].timestamp <= t
  {
    if |rows| == 1 then rows[0].timestamp
    else
      var rest := MaxTimestamp(rows[1..]);
      assert forall k :: 1 <= k < |rows| ==> rows[k] == rows[1..][k - 1];
      if rows[0].timestamp >= rest then rows[0].timestamp else rest
  }

  /** The rows whose timestamp is at least `bound`, in their original order. */
  function Since(rows: seq<Row>, bound: int): (kept: seq<Row>)
    ensures |kept| <= |rows|
    ensures forall x :: x in kept <==> x in rows && x.timestamp >= bound
  {
    if |rows| == 0 then []
    else
      var rest := Since(rows[1..], bound);
      assert forall x :: x in rows <==> x == rows[0] || x in rows[1..];
      if rows[0].timestamp >= bound then [rows[0]] + rest else rest
  }

  /** Filtering distributes over concatenation, so it keeps the relative order of rows. */
  lemma {:induction false} SinceAppend(a: seq<Row>, b: seq<Row>, bound: int)
    ensures Since(a + b, bound) == Since(a, bound) + Since(b, bound)
  {
    if |a| == 0 {
      assert a + b == b;
    } else {
      assert (a + b)[1..] == a[1..] + b;
      assert (a + b)[0] == a[0];
      SinceAppend(a[1..], b, bound);
    }
  }

  /** Filtering a single row keeps it exactly when it is recent enough. */
  lemma SinceSingle(x: Row, bound: int)
    ensures Since([x], bound) == if x.timestamp >= bound then [x] else []
  {
    assert [x][1..] == [];
  }

  /** The rows the replay pointer has made visible: rows[0:i]. */
  function Prefix(rows: seq<Row>, i: nat): (p: seq<Row>)
    ensures |p| == if i <= |rows| then i else |rows|
    ensures forall k :: 0 <= k < |p| ==> p[k] == rows[k]
  {
    if i <= |rows| then rows[..i] else rows
  }

  /** The current view for pointer i: nothing before the replay starts, otherwise the
      visible prefix restricted to the last WindowSeconds (an empty prefix stays empty). */
  function View(rows: seq<Row>, i: nat): (v: Option<seq<Row>>)
    ensures v.None? <==> i == 0
    ensures v.Some? && |Prefix(rows, i)| == 0 ==> v.value == []
    ensures v.Some? && |Prefix(rows, i)| > 0 ==>
      var p := Prefix(rows, i);
      forall x :: x in v.value <==> x in p && x.timestamp >= MaxTimestamp(p) - WindowSeconds
    ensures v.Some? && |Prefix(rows, i)| > 0 ==>
      v.value == Since(Prefix(rows, i), MaxTimestamp(Prefix(rows, i)) - WindowSeconds)
  {
    if i == 0 then None
    else
      var p := Prefix(rows, i);
      if |p| == 0 then Some(p) else Some(Since(p, MaxTimestamp(p) - WindowSeconds))
  }

  /** Every row of the view lies within WindowSeconds of every row of the view, and
      every visible row carrying the latest timestamp is in the view. */
  lemma ViewSpan(rows: seq<Row>, i: nat)
    requires i > 0 && |rows| > 0
    ensures View(rows, i).Some?
    ensures forall x, y :: x in View(rows, i).value && y in View(rows, i).value ==>
      x.timestamp >= y.timestamp - WindowSeconds
    ensures forall k ::
      (0 <= k < |Prefix(rows, i)| && Prefix(rows, i)[k].timestamp == MaxTimestamp(Prefix(rows, i)))
      ==> Prefix(rows, i)[k] in View(rows, i).value
  {
    var p := Prefix(rows, i);
    forall y | y in View(rows, i).value ensures y.timestamp <= MaxTimestamp(p) {
      var k :| 0 <= k < |p| && p[k] == y;
    }
  }
}
