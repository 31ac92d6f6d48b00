/**
  The option tables of jquery-cron: the `<option>` lists the widget offers
  in each select box, built once by the loops that fill `str_opt_mih`,
  `str_opt_hid`, `str_opt_dom`, `str_opt_month`, `str_opt_dow` and
  `str_opt_period`. An option is its `value` attribute and its text.
 */
module CronTables {
  import opened Text
  import opened Results
  import opened CronGrammar

  datatype Opt = Opt(value: string, text: string)

  /** The editing blocks of the widget, one per key of `block` other than `period`. */
  datatype Block = Dom | Month | Mins | Dow | TimeHrs | TimeMins

  /** The column of the crontab entry a block edits (`v` in `methods.value`). */
  function Column(b: Block): (c: nat)
    ensures c < 5
  {
    match b
    case Mins => 0
    case TimeMins => 0
    case TimeHrs => 1
    case Dom => 2
    case Month => 3
    case Dow => 4
  }

  const MonthNames: seq<string> := ["January", "February", "March", "April",
                                    "May", "June", "July", "August",
                                    "September", "October", "November", "December"]

  const DayNames: seq<string> := ["Sunday", "Monday", "Tuesday", "Wednesday", "Thursday",
                                  "Friday", "Saturday"]

  /** A number below 100 written with two digits, as the minute and hour labels are. */
  function ZeroPad(i: nat): string
    requires i < 100
  {
    (if i < 10 then "0" else "") + Decimal(i)
  }

  /** The ordinal suffix of a day of the month. */
  function Suffix(i: nat): string {
    if i == 1 || i == 21 || i == 31 then "st"
    else if i == 2 || i == 22 then "nd"
    else if i == 3 || i == 23 then "rd"
    else "th"
  }

  function MinuteOpt(i: nat): Opt
    requires i < 60
  {
    Opt(Decimal(i), ZeroPad(i))
  }

  function HourOpt(i: nat): Opt
    requires i < 24
  {
    Opt(Decimal(i), ZeroPad(i))
  }

  function DomOpt(i: nat): Opt
    requires 1 <= i < 32
  {
    Opt(Decimal(i), Decimal(i) + Suffix(i))
  }

  function MonthOpt(i: nat): Opt
    requires i < 12
  {
    Opt(Decimal(i + 1), MonthNames[i])
  }

  function DowOpt(i: nat): Opt
    requires i < 7
  {
    Opt(Decimal(i), DayNames[i])
  }

  /** The number of options of a block: one per value its column admits. */
  function Size(b: Block): (n: nat)
    ensures n == MaxVal[Column(b)] - MinVal[Column(b)] + 1
  {
    match b
    case Mins => 60
    case TimeMins => 60
    case TimeHrs => 24
    case Dom => 31
    case Month => 12
    case Dow => 7
  }

  /** Option `k` of a block's select box. */
  function OptionAt(b: Block, k: nat): (o: Opt)
    requires k < Size(b)
    ensures o.value == Decimal(MinVal[Column(b)] + k)
  {
    match b
    case Mins => MinuteOpt(k)
    case TimeMins => MinuteOpt(k)
    case TimeHrs => HourOpt(k)
    case Dom => DomOpt(k + 1)
    case Month => MonthOpt(k)
    case Dow => DowOpt(k)
  }

  /** The options of a block's select box, in document order. */
  function Table(b: Block): (t: seq<Opt>)
    ensures |t| == Size(b)
  {
    seq(Size(b), k requires 0 <= k < Size(b) => OptionAt(b, k))
  }

  /** The options of the period select: the custom entries (key as text) before the six shapes. */
  function PeriodTable(custom: seq<(string, string)>): seq<Opt> {
    seq(|custom|, k requires 0 <= k < |custom| => Opt(custom[k].1, custom[k].0)) +
    seq(6, k requires 0 <= k < 6 => Opt(Name(Shapes[k]), Name(Shapes[k])))
  }

  // The building loops, one per table.

  method MinuteOptions() returns (opts: seq<Opt>)
    ensures opts == Table(Mins) && opts == Table(TimeMins)
  {
    opts := [];
    for i := 0 to 60
      invariant opts == Table(Mins)[..i]
    {
      var j := if i < 10 then "0" else "";
      opts := opts + [Opt(Decimal(i), j + Decimal(i))];
    }
  }

  method HourOptions() returns (opts: seq<Opt>)
    ensures opts == Table(TimeHrs)
  {
    opts := [];
    for i := 0 to 24
      invariant opts == Table(TimeHrs)[..i]
    {
      var j := if i < 10 then "0" else "";
      opts := opts + [Opt(Decimal(i), j + Decimal(i))];
    }
  }

  method DomOptions() returns (opts: seq<Opt>)
    ensures opts == Table(Dom)
  {
    opts := [];
    for i := 1 to 32
      invariant opts == Table(Dom)[..i - 1]
    {
      var suffix;
      if i == 1 || i == 21 || i == 31 {
        suffix := "st";
      } else if i == 2 || i == 22 {
        suffix := "nd";
      } else if i == 3 || i == 23 {
        suffix := "rd";
      } else {
        suffix := "th";
      }
      opts := opts + [Opt(Decimal(i), Decimal(i) + suffix)];
    }
  }

  method MonthOptions() returns (opts: seq<Opt>)
    ensures opts == Table(Block.Month)
  {
    opts := [];
    for i := 0 to |MonthNames|
      invariant opts == Table(Block.Month)[..i]
    {
      opts := opts + [Opt(Decimal(i + 1), MonthNames[i])];
    }
  }

  method DowOptions() returns (opts: seq<Opt>)
    ensures opts == Table(Dow)
  {
    opts := [];
    for i := 0 to |DayNames|
      invariant opts == Table(Dow)[..i]
    {
      opts := opts + [Opt(Decimal(i), DayNames[i])];
    }
  }

  /** The custom-period loop of `init` followed by the `str_opt_period` loop. */
  method PeriodOptions(custom: seq<(string, string)>) returns (opts: seq<Opt>)
    ensures opts == PeriodTable(custom)
  {
    opts := [];
    for k := 0 to |custom|
      invariant opts == PeriodTable(custom)[..k]
    {
      opts := opts + [Opt(custom[k].1, custom[k].0)];
    }
    var periods := ["minute", "hour", "day", "week", "month", "year"];
    for i := 0 to |periods|
      invariant opts == PeriodTable(custom)[..|custom| + i]
    {
      assert periods[i] == Name(Shapes[i]);
      opts := opts + [Opt(periods[i], periods[i])];
    }
  }

  // What the tables offer.

  /**
    Each block offers exactly the values its column's range check admits,
    in ascending order: option `k` has value `minval + k`, and there is one
    option for every value up to `maxval`.
   */
  lemma TableRange(b: Block)
    ensures |Table(b)| == MaxVal[Column(b)] - MinVal[Column(b)] + 1
    ensures forall k :: 0 <= k < |Table(b)| ==> Table(b)[k].value == Decimal(MinVal[Column(b)] + k)
  {
  }

  lemma TableLength(b: Block)
    ensures |Table(b)| == MaxVal[Column(b)] - MinVal[Column(b)] + 1
  {
  }

  /** The option of `b` whose value is the decimal text of `v` is the one at `v - minval`. */
  lemma {:induction false} OptionOfValue(b: Block, v: nat, k: nat)
    requires k < |Table(b)|
    ensures Table(b)[k].value == Decimal(v) <==> v == MinVal[Column(b)] + k
  {
    TableRange(b);
    if Table(b)[k].value == Decimal(v) {
      NumValueOfDecimal(v);
      NumValueOfDecimal(MinVal[Column(b)] + k);
    }
  }

  /** The period select offers `Name(t)` for every shape, after the custom entries. */
  lemma PeriodTableShapes(custom: seq<(string, string)>, t: Shape)
    ensures exists k :: |custom| <= k < |PeriodTable(custom)| && PeriodTable(custom)[k].value == Name(t)
  {
    var k := ShapeIndex(t);
    assert PeriodTable(custom)[|custom| + k].value == Name(t);
  }

  /**
    The labels of the numeric blocks start with their value: `parseInt` of
    a minute, hour or day-of-month label is the option's value.
   */
  lemma {:induction false} NumericLabels(b: Block, k: nat)
    requires b != Block.Month && b != Dow && k < |Table(b)|
    ensures |Table(b)[k].text| > 0 && IsDigit(Table(b)[k].text[0])
    ensures ParseInt(Table(b)[k].text) == MinVal[Column(b)] + k
  {
    var v := MinVal[Column(b)] + k;
    var l := Table(b)[k].text;
    if b == Dom {
      assert l == Decimal(v) + Suffix(v);
      ParseIntPrefix(Decimal(v), Suffix(v));
      NumValueOfDecimal(v);
    } else {
      ZeroPadValue(v);
      ParseIntPrefix(l, "");
      assert l + "" == l;
    }
  }

  /** The month and day-of-week labels are names, not numbers. */
  lemma NamedLabels(b: Block, k: nat)
    requires (b == Block.Month || b == Dow) && k < |Table(b)|
    ensures |Table(b)[k].text| > 0 && !IsDigit(Table(b)[k].text[0])
  {
  }

  /** A zero-padded label is the two digits of its number. */
  lemma ZeroPadValue(i: nat)
    requires i < 100
    ensures ZeroPad(i) == [DigitChar(i / 10), DigitChar(i % 10)]
    ensures AllDigits(ZeroPad(i)) && NumValue(ZeroPad(i)) == i
  {
    if i >= 10 {
      assert Decimal(i) == Decimal(i / 10) + [DigitChar(i % 10)];
      assert Decimal(i / 10) == [DigitChar(i / 10)];
    }
    TwoDigitValue(ZeroPad(i));
  }

  // The `option:contains(m)` lookup that the `time-mins` block uses.

  /** `find("option:contains(pat)").first()`: the first option whose text contains `pat`. */
  function FirstContaining(opts: seq<Opt>, pat: string): (r: Option<nat>)
    ensures r.Some? ==> r.value < |opts| && Contains(opts[r.value].text, pat)
    ensures r.Some? ==> forall j :: 0 <= j < r.value ==> !Contains(opts[j].text, pat)
    ensures r.None? ==> forall j :: 0 <= j < |opts| ==> !Contains(opts[j].text, pat)
    decreases |opts|
  {
    if |opts| == 0 then None
    else if Contains(opts[0].text, pat) then Some(0)
    else match FirstContaining(opts[1..], pat)
      case None => None
      case Some(k) => Some(k + 1)
  }

  /** Containment in a two-character text. */
  lemma ContainsInPair(text: string, pat: string)
    requires |text| == 2 && 1 <= |pat| <= 2
    ensures |pat| == 1 ==> (Contains(text, pat) <==> pat[0] == text[0] || pat[0] == text[1])
    ensures |pat| == 2 ==> (Contains(text, pat) <==> pat == text)
  {
    if |pat| == 1 {
      if pat[0] == text[0] {
        assert OccursAt(text, pat, 0);
      } else if pat[0] == text[1] {
        assert OccursAt(text, pat, 1);
      }
    } else {
      if pat == text {
        assert OccursAt(text, pat, 0);
      }
    }
  }

  /**
    For a listed minute `m` of one or two digits, the first minute label
    containing `m` is the option whose value is `m`, when `m` is below 60;
    otherwise no label contains it. So `0` finds `00`, `5` finds `05` and `15`
    finds `15`.
   */
  lemma {:induction false} MinuteLookup(m: string)
    requires IsNumber(m)
    ensures Number(m) < 60 ==> FirstContaining(Table(TimeMins), m) == Some(Number(m))
    ensures Number(m) >= 60 ==> FirstContaining(Table(TimeMins), m) == None
  {
    var opts := Table(TimeMins);
    var v := Number(m);
    forall j | 0 <= j < 60 && (j <= v || v >= 60)
      ensures Contains(opts[j].text, m) <==> j == v
    {
      assert opts[j] == MinuteOpt(j);
      LabelContains(m, j);
    }
    var r := FirstContaining(opts, m);
    if v < 60 {
      assert Contains(opts[v].text, m);
      assert r.Some?;
    } else {
      assert r.None?;
    }
  }

  /**
    Up to the minute `m` names, a zero-padded minute label contains `m`
    only when it is that minute's label; no label contains a number of 60
    or more.
   */
  lemma LabelContains(m: string, j: nat)
    requires IsNumber(m) && j < 60 && (j <= Number(m) || Number(m) >= 60)
    ensures Contains(ZeroPad(j), m) <==> j == Number(m)
  {
    var v := Number(m);
    NumberIsNumValue(m);
    ZeroPadValue(j);
    var l := ZeroPad(j);
    ContainsInPair(l, m);
    if |m| == 1 {
      assert v == DigitValue(m[0]) && j < 10;
      assert DigitValue(l[0]) == 0 && DigitValue(l[1]) == j;
    } else {
      TwoDigitValue(m);
      if j == v {
        assert j / 10 == DigitValue(m[0]) && j % 10 == DigitValue(m[1]);
        DigitRoundTrip(m[0]);
        DigitRoundTrip(m[1]);
        assert l == m;
      }
    }
  }

  lemma DigitRoundTrip(c: char)
    requires IsDigit(c)
    ensures DigitChar(DigitValue(c)) == c
  {
  }
}
