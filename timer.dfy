/** `Timer::dateFormat`: a Chinese relative-time label for a timestamp,
    chosen by looking the elapsed seconds up in a table of seven ranges. */
module Timer {
  import opened PhpLib

  /** `PHP_INT_MAX` on a 64-bit host. */
  const PhpIntMax: int := 0x7FFF_FFFF_FFFF_FFFF

  /** The `$timestamp` argument: numeric (whole seconds) or not. */
  datatype Stamp = Numeric(seconds: int) | NonNumeric

  /** The label of each row of the table. */
  datatype Unit = Future | JustNow | Minutes | Hours | Days | Months | Years

  /** A row of the table: elapsed seconds in `[s, e)` get `unit`'s label. */
  datatype Row = Row(s: int, e: int, unit: Unit)

  const Table: seq<Row> := [
    Row(-PhpIntMax, 0, Future),
    Row(0, 60, JustNow),
    Row(60, 3600, Minutes),
    Row(3600, 86400, Hours),
    Row(86400, 2592000, Days),
    Row(2592000, 31536000, Months),
    Row(31536000, PhpIntMax, Years)
  ]

  predicate InRow(row: Row, pass: int)
  {
    row.s <= pass < row.e
  }

  /** The seconds in one of a counted unit (1 for the two plain labels). */
  function UnitSeconds(u: Unit): (r: nat)
    ensures r >= 1
  {
    match u
    case Future => 1
    case JustNow => 1
    case Minutes => 60
    case Hours => 3600
    case Days => 86400
    case Months => 2592000
    case Years => 31536000
  }

  function Suffix(u: Unit): string
  {
    match u
    case Future => "将来"
    case JustNow => "刚刚"
    case Minutes => "分钟前"
    case Hours => "小时前"
    case Days => "天前"
    case Months => "月前"
    case Years => "年前"
  }

  // ---------------------------------------------------------------------------
  // Decimal numerals
  // ---------------------------------------------------------------------------

  predicate IsDigit(c: char)
  {
    '0' <= c <= '9'
  }

  function DigitChar(d: nat): (c: char)
    requires d < 10
    ensures IsDigit(c) && c as int - '0' as int == d
  {
    ('0' as int + d) as char
  }

  /** The decimal numeral of `n`, as PHP prints a whole number. */
  function NatToString(n: nat): (r: string)
    ensures |r| >= 1 && forall i :: 0 <= i < |r| ==> IsDigit(r[i])
    ensures |r| > 1 ==> r[0] != '0'
  {
    if n < 10 then [DigitChar(n)] else NatToString(n / 10) + [DigitChar(n % 10)]
  }

  /** The value of a string of decimal digits. */
  function ParseNat(s: string): nat
    requires forall i :: 0 <= i < |s| ==> IsDigit(s[i])
  {
    if |s| == 0 then 0
    else
      assert IsDigit(s[|s| - 1]);
      ParseNat(s[..|s| - 1]) * 10 + (s[|s| - 1] as int - '0' as int)
  }

  /** Reading the numeral back gives the number. */
  lemma {:induction false} NatToStringRoundTrip(n: nat)
    ensures ParseNat(NatToString(n)) == n
  {
    if n >= 10 {
      NatToStringRoundTrip(n / 10);
      var s := NatToString(n);
      assert s[..|s| - 1] == NatToString(n / 10);
    }
  }

  // ---------------------------------------------------------------------------
  // The lookup
  // ---------------------------------------------------------------------------

  /** The first row of `rows` whose range holds `pass` (the `foreach` with
      an early `return`). */
  function FirstMatch(rows: seq<Row>, pass: int): (r: Option<Row>)
    ensures r.Some? ==> exists i :: (0 <= i < |rows| && rows[i] == r.value && InRow(rows[i], pass)
      && forall j :: 0 <= j < i ==> !InRow(rows[j], pass))
    ensures r.None? <==> forall i :: 0 <= i < |rows| ==> !InRow(rows[i], pass)
  {
    if |rows| == 0 then None
    else if InRow(rows[0], pass) then Some(rows[0])
    else
      var r := FirstMatch(rows[1..], pass);
      assert forall i :: 1 <= i < |rows| ==> rows[i] == rows[1..][i - 1];
      r
  }

  /** The label a row gives for `pass` elapsed seconds. */
  function Message(u: Unit, pass: int): string
    requires u != Future && u != JustNow ==> pass >= 0
  {
    if u == Future || u == JustNow then Suffix(u)
    else NatToString(pass / UnitSeconds(u)) + Suffix(u)
  }

  /** `Timer::dateFormat($timestamp)` at the time `now` (`time()`). */
  function DateFormat(now: int, stamp: Stamp): (r: string)
    ensures stamp.NonNumeric? ==> r == ""
    ensures stamp.Numeric? ==>
      var pass := now - stamp.seconds;
      && (r == "" <==> pass < -PhpIntMax || pass >= PhpIntMax)
      && (-PhpIntMax <= pass < 0 ==> r == "将来")
      && (0 <= pass < 60 ==> r == "刚刚")
  {
    if stamp.NonNumeric? then ""
    else
      var pass := now - stamp.seconds;
      TableMatchesBucket(pass);
      match FirstMatch(Table, pass)
      case None => ""
      case Some(row) => Message(row.unit, pass)
  }

  /** An independent reading of the table: the unit for `pass` elapsed
      seconds, by plain comparisons. */
  function Bucket(pass: int): Option<Unit>
  {
    if pass < -PhpIntMax then None
    else if pass < 0 then Some(Future)
    else if pass < 60 then Some(JustNow)
    else if pass < 3600 then Some(Minutes)
    else if pass < 86400 then Some(Hours)
    else if pass < 2592000 then Some(Days)
    else if pass < 31536000 then Some(Months)
    else if pass < PhpIntMax then Some(Years)
    else None
  }

  /** The rows follow each other without gap or overlap, from
      `-PHP_INT_MAX` to `PHP_INT_MAX`. */
  lemma TableContiguous()
    ensures Table[0].s == -PhpIntMax && Table[|Table| - 1].e == PhpIntMax
    ensures forall i :: 0 <= i < |Table| ==> Table[i].s < Table[i].e
    ensures forall i :: 0 <= i < |Table| - 1 ==> Table[i].e == Table[i + 1].s
  {
  }

  /** So at most one row holds any `pass`: the first match is the only one. */
  lemma UniqueMatch(pass: int, i: nat, j: nat)
    requires i < |Table| && j < |Table| && InRow(Table[i], pass) && InRow(Table[j], pass)
    ensures i == j
  {
    TableContiguous();
    if i < j {
      RowsIncrease(i, j);
    } else if j < i {
      RowsIncrease(j, i);
    }
  }

  lemma {:induction false} RowsIncrease(i: nat, j: nat)
    requires i < j < |Table|
    ensures Table[i].e <= Table[j].s
    decreases j - i
  {
    TableContiguous();
    if i + 1 < j {
      RowsIncrease(i + 1, j);
    }
  }

  /** Every row lies within `[-PHP_INT_MAX, PHP_INT_MAX)`. */
  lemma RowWithin(i: nat)
    requires i < |Table|
    ensures -PhpIntMax <= Table[i].s && Table[i].e <= PhpIntMax
  {
    TableContiguous();
    if 0 < i {
      RowsIncrease(0, i);
    }
    if i < |Table| - 1 {
      RowsIncrease(i, |Table| - 1);
    }
  }

  /** The table lookup agrees with `Bucket`. */
  lemma TableMatchesBucket(pass: int)
    ensures FirstMatch(Table, pass).None? <==> Bucket(pass).None?
    ensures FirstMatch(Table, pass).Some? ==> Bucket(pass) == Some(FirstMatch(Table, pass).value.unit)
  {
    var r := FirstMatch(Table, pass);
    if pass < -PhpIntMax || pass >= PhpIntMax {
      if r.Some? {
        var i :| 0 <= i < |Table| && Table[i] == r.value && InRow(Table[i], pass);
        RowWithin(i);
      }
    } else {
      var k :=
        if pass < 0 then 0 else if pass < 60 then 1 else if pass < 3600 then 2
        else if pass < 86400 then 3 else if pass < 2592000 then 4
        else if pass < 31536000 then 5 else 6;
      assert InRow(Table[k], pass) && Bucket(pass) == Some(Table[k].unit);
      var i :| 0 <= i < |Table| && Table[i] == r.value && InRow(Table[i], pass);
      UniqueMatch(pass, i, k);
    }
  }

  /** The number in a counted label lies in its unit's range: minutes 1..59,
      hours 1..23, days 1..29, months 1..12, years at least 1. */
  lemma CountBounds(pass: int)
    requires 60 <= pass < PhpIntMax
    ensures var u := Bucket(pass).value;
      && 1 <= pass / UnitSeconds(u)
      && (u == Minutes ==> pass / 60 <= 59)
      && (u == Hours ==> pass / 3600 <= 23)
      && (u == Days ==> pass / 86400 <= 29)
      && (u == Months ==> pass / 2592000 <= 12)
  {
  }

  /** A counted label is the numeral of whole units elapsed, then the unit. */
  lemma CountedLabel(now: int, seconds: int)
    requires 60 <= now - seconds < PhpIntMax
    ensures var pass := now - seconds;
      var u := Bucket(pass).value;
      DateFormat(now, Numeric(seconds)) == NatToString(pass / UnitSeconds(u)) + Suffix(u)
  {
    var pass := now - seconds;
    TableMatchesBucket(pass);
    var row := FirstMatch(Table, pass).value;
    MatchedLabel(now, seconds, row);
  }

  /** A matched row's label is the result. */
  lemma MatchedLabel(now: int, seconds: int, row: Row)
    requires FirstMatch(Table, now - seconds) == Some(row)
    requires row.unit != Future && row.unit != JustNow ==> now - seconds >= 0
    ensures DateFormat(now, Numeric(seconds)) == Message(row.unit, now - seconds)
  {
  }

  /** Elapsed time of exactly `PHP_INT_MAX` falls outside every row. */
  lemma IntMaxHasNoLabel(now: int)
    ensures DateFormat(now, Numeric(now - PhpIntMax)) == ""
  {
  }
}
