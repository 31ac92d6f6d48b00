/**
  The restricted five-field crontab grammar of jquery-cron (`cron_field`,
  `combinations`, `getCronType`). Fields are minute, hour, day of month,
  month and day of week, separated by one space; each is `*` or a comma
  list of one- or two-digit numbers.
 */
module CronGrammar {
  import opened Text
  import opened Results

  /** The recurrence shapes, one per key of `combinations`. */
  datatype Shape = Minute | Hour | Day | Week | Month | Year

  /** The keys of `combinations` in the order the first-match loop visits them. */
  const Shapes: seq<Shape> := [Minute, Hour, Day, Week, Month, Year]

  /** The position of a shape among the keys of `combinations`. */
  function ShapeIndex(t: Shape): (k: nat)
    ensures k < |Shapes| && Shapes[k] == t
  {
    match t
    case Minute => 0
    case Hour => 1
    case Day => 2
    case Week => 3
    case Month => 4
    case Year => 5
  }

  /** The string key under which a shape appears in `combinations` and `toDisplay`. */
  function Name(t: Shape): string {
    match t
    case Minute => "minute"
    case Hour => "hour"
    case Day => "day"
    case Week => "week"
    case Month => "month"
    case Year => "year"
  }

  /** The shape whose key is `name`, if any (`toDisplay.hasOwnProperty(name)`). */
  function ShapeNamed(name: string): (r: Option<Shape>)
    ensures r.Some? ==> Name(r.value) == name
    ensures r.None? ==> forall t :: Name(t) != name
  {
    if name == "minute" then Some(Minute)
    else if name == "hour" then Some(Hour)
    else if name == "day" then Some(Day)
    else if name == "week" then Some(Week)
    else if name == "month" then Some(Month)
    else if name == "year" then Some(Year)
    else None
  }

  lemma NamesDistinct(t: Shape, u: Shape)
    ensures Name(t) == Name(u) <==> t == u
  {
    if t != u {
      assert |Name(t)| != |Name(u)| || Name(t)[0] != Name(u)[0];
    }
  }

  lemma {:induction false} ShapeNamedName(t: Shape)
    ensures ShapeNamed(Name(t)) == Some(t)
  {
    var r := ShapeNamed(Name(t));
    assert r.Some?;
    NamesDistinct(r.value, t);
  }

  /** The three failures of `getCronType`, each raised with `$.error`. */
  datatype CronError = InvalidInitialValue | InvalidValue(col: nat) | UnsupportedFormat

  /** The text passed to `$.error` for an input `s`. */
  function Message(e: CronError, s: string): string {
    match e
    case InvalidInitialValue => "cron: invalid initial value"
    case InvalidValue(col) => "cron: invalid value found (col " + Decimal(col) + ") in " + s
    case UnsupportedFormat => "cron: valid but unsupported cron format"
  }

  /** `\d{1,2}`. */
  predicate IsNumber(f: string) {
    1 <= |f| <= 2 && AllDigits(f)
  }

  /** A hand-written recogniser for `(\d{1,2},)*\d{1,2}` (the body of `cron_field_must`). */
  predicate IsList(f: string)
    decreases |f|
  {
    if |f| == 0 || !IsDigit(f[0]) then false
    else if |f| == 1 then true
    else if f[1] == ',' then IsList(f[2..])
    else if !IsDigit(f[1]) then false
    else if |f| == 2 then true
    else f[2] == ',' && IsList(f[3..])
  }

  /** The recogniser accepts exactly the strings whose comma-separated pieces are all `\d{1,2}`. */
  lemma {:induction false} ListPieces(f: string)
    ensures IsList(f) <==> forall k :: 0 <= k < |Split(f, ',')| ==> IsNumber(Split(f, ',')[k])
    decreases |f|
  {
    var P := Split(f, ',');
    if |f| == 0 {
      assert !IsNumber(P[0]);
    } else if !IsDigit(f[0]) {
      if f[0] == ',' {
        assert P == [""] + Split(f[1..], ',');
        assert !IsNumber(P[0]);
      } else {
        SplitFirstPiece(f, ',', 1);
        assert P[0][0] == f[0];
        assert !IsNumber(P[0]);
      }
    } else if |f| == 1 {
      SplitPlain(f, ',');
    } else if f[1] == ',' {
      assert f == f[..1] + [','] + f[2..];
      assert IsNumber(f[..1]);
      PiecesAfter(f[..1], f[2..]);
      ListPieces(f[2..]);
    } else if !IsDigit(f[1]) {
      SplitFirstPiece(f, ',', 2);
      assert P[0][1] == f[1];
      assert !IsNumber(P[0]);
    } else if |f| == 2 {
      SplitPlain(f, ',');
    } else if f[2] == ',' {
      assert f == f[..2] + [','] + f[3..];
      assert IsNumber(f[..2]);
      PiecesAfter(f[..2], f[3..]);
      ListPieces(f[3..]);
    } else {
      SplitFirstPiece(f, ',', 3);
      assert !IsNumber(P[0]);
    }
  }

  /** A number and a comma in front of `rest` add one number-piece before the pieces of `rest`. */
  lemma PiecesAfter(h: string, rest: string)
    requires IsNumber(h)
    ensures var P, Q := Split(h + [','] + rest, ','), Split(rest, ',');
      (forall k :: 0 <= k < |P| ==> IsNumber(P[k])) <==> (forall k :: 0 <= k < |Q| ==> IsNumber(Q[k]))
  {
    assert ',' !in h by {
      assert AllDigits(h);
    }
    SplitCons(h, ',', rest);
    var P, Q := Split(h + [','] + rest, ','), Split(rest, ',');
    assert P == [h] + Q;
    assert forall k :: 1 <= k < |P| ==> P[k] == Q[k - 1];
    assert forall j :: 0 <= j < |Q| ==> Q[j] == P[j + 1];
  }

  /** The numbers a list names, in the order written (`field.split(",")`). */
  function Listed(f: string): (vs: seq<nat>)
    requires IsList(f)
    ensures |vs| == |Split(f, ',')| >= 1
    ensures forall k :: 0 <= k < |vs| ==> vs[k] < 100
    ensures forall k :: 0 <= k < |vs| ==> IsNumber(Split(f, ',')[k]) && vs[k] == Number(Split(f, ',')[k])
  {
    ListPieces(f);
    assert forall k :: 0 <= k < |Split(f, ',')| ==> IsNumber(Split(f, ',')[k]);
    Numbers(Split(f, ','))
  }

  function Numbers(ps: seq<string>): (vs: seq<nat>)
    requires forall k :: 0 <= k < |ps| ==> IsNumber(ps[k])
    ensures |vs| == |ps| && forall k :: 0 <= k < |ps| ==> vs[k] == Number(ps[k])
  {
    if |ps| == 0 then [] else [Number(ps[0])] + Numbers(ps[1..])
  }

  /** The value of a `\d{1,2}` piece. */
  function Number(p: string): (v: nat)
    requires IsNumber(p)
    ensures v < 100
  {
    if |p| == 1 then DigitValue(p[0])
    else
      TwoDigitValue(p);
      NumValue(p)
  }

  lemma NumberIsNumValue(p: string)
    requires IsNumber(p)
    ensures Number(p) == NumValue(p)
  {
    if |p| == 1 {
      assert p[..0] == [];
    }
  }

  /** `parseInt` of a list is its first number: the only one the range check sees. */
  lemma {:induction false} ParseIntOfList(f: string)
    requires IsList(f)
    ensures ParseInt(f) == Listed(f)[0]
  {
    ListPieces(f);
    var P := Split(f, ',');
    var n := if |f| == 1 || f[1] == ',' then 1 else 2;
    assert f[..n] == P[0] by {
      if n == |f| {
        SplitPlain(f, ',');
      } else {
        assert f == f[..n] + [','] + f[n + 1..];
        SplitCons(f[..n], ',', f[n + 1..]);
      }
    }
    ParseIntPrefix(f[..n], f[n..]);
    assert f[..n] + f[n..] == f;
    NumberIsNumValue(P[0]);
  }

  /** `cron_field`: a wildcard or a list. */
  predicate IsField(f: string) {
    f == "*" || IsList(f)
  }

  /** `cron_str.split(" ")`. */
  function Fields(s: string): seq<string> {
    Split(s, ' ')
  }

  /** The structural check `valid_cron`: five fields, one space between each. */
  predicate WellFormed(s: string) {
    var d := Fields(s);
    |d| == 5 && forall i :: 0 <= i < 5 ==> IsField(d[i])
  }

  /** `minval` and `maxval`: minute, hour, day of month, month, day of week. */
  const MinVal: seq<nat> := [0, 0, 1, 1, 0]
  const MaxVal: seq<nat> := [59, 23, 31, 12, 6]

  /** The range test of column `i`: a wildcard, or `parseInt` of the field within bounds. */
  predicate InRange(f: string, i: nat)
    requires i < 5
  {
    f == "*" || MinVal[i] <= ParseInt(f) <= MaxVal[i]
  }

  predicate AllInRange(d: seq<string>)
    requires |d| == 5
  {
    forall i :: 0 <= i < 5 ==> InRange(d[i], i)
  }

  /** Which columns a shape's pattern in `combinations` requires to be concrete lists. */
  function Pattern(t: Shape): (p: seq<bool>)
    ensures |p| == 5
  {
    match t
    case Minute => [false, false, false, false, false]
    case Hour => [true, false, false, false, false]
    case Day => [true, true, false, false, false]
    case Week => [true, true, false, false, true]
    case Month => [true, true, true, false, false]
    case Year => [true, true, true, true, false]
  }

  /** `combinations[t].test(s)`: a list where the pattern is concrete, `*` elsewhere. */
  predicate Matches(s: string, t: Shape) {
    var d := Fields(s);
    |d| == 5 && forall i :: 0 <= i < 5 ==> if Pattern(t)[i] then IsList(d[i]) else d[i] == "*"
  }

  /** The first column at or after `i` that fails its range test. */
  function FirstBadColumn(d: seq<string>, i: nat): Option<nat>
    requires |d| == 5 && i <= 5
    decreases 5 - i
  {
    if i == 5 then None
    else if InRange(d[i], i) then FirstBadColumn(d, i + 1)
    else Some(i)
  }

  /** The range check reports the first column from `i` on whose field is out of range, or none when all are in range. */
  lemma {:induction false} FirstBadColumnFinds(d: seq<string>, i: nat)
    requires |d| == 5 && i <= 5
    ensures var r := FirstBadColumn(d, i);
      (r.None? <==> forall j :: i <= j < 5 ==> InRange(d[j], j)) &&
      (r.Some? ==> i <= r.value < 5 && !InRange(d[r.value], r.value) &&
                   forall j :: i <= j < r.value ==> InRange(d[j], j))
    decreases 5 - i
  {
    if i < 5 && InRange(d[i], i) {
      FirstBadColumnFinds(d, i + 1);
    }
  }

  /** The first shape of `ts` whose pattern matches `s`. */
  function FirstMatch(s: string, ts: seq<Shape>): (r: Option<Shape>)
    ensures r.None? <==> forall k :: 0 <= k < |ts| ==> !Matches(s, ts[k])
    ensures r.Some? ==> r.value in ts && Matches(s, r.value)
    decreases |ts|
  {
    if |ts| == 0 then None
    else if Matches(s, ts[0]) then Some(ts[0])
    else FirstMatch(s, ts[1..])
  }

  /** A wildcard is not a list, so the six patterns exclude one another. */
  lemma {:induction false} PatternsDisjoint(s: string, t: Shape, u: Shape)
    requires Matches(s, t) && Matches(s, u)
    ensures t == u
  {
    var d := Fields(s);
    assert !IsList("*");
    forall i | 0 <= i < 5
      ensures Pattern(t)[i] == Pattern(u)[i]
    {
      if Pattern(t)[i] {
        assert IsList(d[i]) && d[i] != "*";
      } else {
        assert d[i] == "*";
      }
    }
    assert Pattern(t) == Pattern(u);
  }

  /** Whichever pattern a string matches, the first-match loop over `combinations` returns it. */
  lemma {:induction false} FirstMatchIsUnique(s: string, t: Shape)
    requires Matches(s, t)
    ensures FirstMatch(s, Shapes) == Some(t)
  {
    assert t in Shapes;
    var r := FirstMatch(s, Shapes);
    assert r.Some? by {
      var k :| 0 <= k < |Shapes| && Shapes[k] == t;
    }
    PatternsDisjoint(s, r.value, t);
  }

  /**
    `getCronType`: the structural check, then the range check of each
    column in order, then the first matching pattern.
   */
  function CronType(s: string): Result<Shape, CronError> {
    if !WellFormed(s) then Failure(InvalidInitialValue)
    else
      match FirstBadColumn(Fields(s), 0)
      case Some(i) => Failure(InvalidValue(i + 1))
      case None =>
        match FirstMatch(s, Shapes)
        case Some(t) => Success(t)
        case None => Failure(UnsupportedFormat)
  }

  /**
    What `getCronType` decides: a malformed string is an invalid initial
    value; otherwise the first column out of range is reported; otherwise
    the string has the one shape whose pattern it matches, or is
    unsupported when it matches none.
   */
  lemma CronTypeCases(s: string)
    ensures CronType(s) == Failure(InvalidInitialValue) <==> !WellFormed(s)
    ensures CronType(s).Success? ==> WellFormed(s) && AllInRange(Fields(s)) && Matches(s, CronType(s).value)
    ensures CronType(s).Success? ==> forall t :: Matches(s, t) <==> t == CronType(s).value
    ensures CronType(s).Failure? && CronType(s).error.InvalidValue? ==>
              var c := CronType(s).error.col;
              WellFormed(s) && 1 <= c <= 5 && !InRange(Fields(s)[c - 1], c - 1) &&
              forall j :: 0 <= j < c - 1 ==> InRange(Fields(s)[j], j)
    ensures CronType(s) == Failure(UnsupportedFormat) <==>
              WellFormed(s) && AllInRange(Fields(s)) && forall t :: !Matches(s, t)
  {
    if WellFormed(s) {
      FirstBadColumnFinds(Fields(s), 0);
    }
    if WellFormed(s) && FirstBadColumn(Fields(s), 0).None? {
      match FirstMatch(s, Shapes)
      case Some(t) =>
        forall u | Matches(s, u)
          ensures u == t
        {
          PatternsDisjoint(s, t, u);
        }
      case None =>
        forall u
          ensures !Matches(s, u)
        {
          var k := ShapeIndex(u);
        }
    }
  }

  /**
    The two loops of `getCronType`: the range check over the split fields
    with early exit, then the first-match loop over `combinations`.
   */
  method GetCronType(s: string) returns (r: Result<Shape, CronError>)
    ensures r == CronType(s)
  {
    if !WellFormed(s) {
      return Failure(InvalidInitialValue);
    }
    var d := Fields(s);
    var bad := CheckRanges(d);
    if bad.Some? {
      return Failure(InvalidValue(bad.value + 1));
    }
    var t := FindPattern(s, Shapes);
    if t.Some? {
      return Success(t.value);
    }
    return Failure(UnsupportedFormat);
  }

  /** The range-check loop: the first column whose field is out of range, if any. */
  method CheckRanges(d: seq<string>) returns (bad: Option<nat>)
    requires |d| == 5
    ensures bad == FirstBadColumn(d, 0)
  {
    var i := 0;
    while i < |d|
      invariant 0 <= i <= |d|
      invariant FirstBadColumn(d, 0) == FirstBadColumn(d, i)
    {
      if d[i] == "*" {
        i := i + 1;
        continue;
      }
      var v := ParseInt(d[i]);
      if v <= MaxVal[i] && v >= MinVal[i] {
        i := i + 1;
        continue;
      }
      return Some(i);
    }
    return None;
  }

  /** The loop over `combinations`: the first shape of `ts` whose pattern the string matches, if any. */
  method FindPattern(s: string, ts: seq<Shape>) returns (t: Option<Shape>)
    ensures t == FirstMatch(s, ts)
  {
    var k := 0;
    while k < |ts|
      invariant 0 <= k <= |ts|
      invariant FirstMatch(s, ts) == FirstMatch(s, ts[k..])
    {
      if Matches(s, ts[k]) {
        return Some(ts[k]);
      }
      assert ts[k..][1..] == ts[k + 1..];
      k := k + 1;
    }
    return None;
  }

  /** `getCronType` returns `t` exactly for well-formed, in-range strings matching `t`'s pattern. */
  lemma {:induction false} ClassifiedExactly(s: string, t: Shape)
    ensures CronType(s) == Success(t) <==> WellFormed(s) && AllInRange(Fields(s)) && Matches(s, t)
  {
    CronTypeCases(s);
  }

  /** Five space-free fields joined by spaces split back into those fields. */
  lemma FieldsOfJoin(d: seq<string>)
    requires |d| == 5 && forall k :: 0 <= k < 5 ==> ' ' !in d[k]
    ensures Fields(Join(d, " ")) == d
  {
    SplitJoin(d, ' ');
  }

  /** A crontab entry written field by field: the five fields joined by single spaces. */
  function Entry(minute: string, hour: string, dom: string, month: string, dow: string): string {
    Join([minute, hour, dom, month, dow], " ")
  }

  /** A field that may stand in column `i` of an entry of a shape that makes the column `concrete` or not. */
  predicate FieldFor(f: string, i: nat, concrete: bool)
    requires i < 5
  {
    ' ' !in f && (if concrete then IsList(f) else f == "*") && InRange(f, i)
  }

  /** Classification of an entry given field by field. */
  lemma ClassifyEntry(m: string, h: string, dm: string, mo: string, dw: string, t: Shape)
    requires FieldFor(m, 0, Pattern(t)[0]) && FieldFor(h, 1, Pattern(t)[1]) && FieldFor(dm, 2, Pattern(t)[2])
    requires FieldFor(mo, 3, Pattern(t)[3]) && FieldFor(dw, 4, Pattern(t)[4])
    ensures CronType(Entry(m, h, dm, mo, dw)) == Success(t)
  {
    var d := [m, h, dm, mo, dw];
    forall i | 0 <= i < 5
      ensures FieldFor(d[i], i, Pattern(t)[i])
    {
      if i == 0 {
      } else if i == 1 {
      } else if i == 2 {
      } else if i == 3 {
      } else {
      }
    }
    ClassifyFields(d, t);
  }

  /** Classification of five fields joined by spaces, each fit for its column. */
  lemma ClassifyFields(d: seq<string>, t: Shape)
    requires |d| == 5 && forall i :: 0 <= i < 5 ==> FieldFor(d[i], i, Pattern(t)[i])
    ensures CronType(Join(d, " ")) == Success(t)
  {
    FieldsOfJoin(d);
    var s := Join(d, " ");
    assert WellFormed(s);
    assert AllInRange(Fields(s));
    assert Matches(s, t);
    ClassifiedExactly(s, t);
  }

  // The classification cases of test/test.js.

  lemma RejectsEmpty()
    ensures CronType("") == Failure(InvalidInitialValue)
  {
    assert |Fields("")| == 1;
  }

  lemma MinuteExample()
    ensures CronType(Entry("*", "*", "*", "*", "*")) == Success(Minute)
  {
    ClassifyEntry("*", "*", "*", "*", "*", Minute);
  }

  lemma HourExample()
    ensures CronType(Entry("1", "*", "*", "*", "*")) == Success(Hour)
  {
    ClassifyEntry("1", "*", "*", "*", "*", Hour);
  }

  lemma HourListExample()
    ensures CronType(Entry("1,2", "*", "*", "*", "*")) == Success(Hour)
  {
    ParseIntPrefix("1", ",2");
    ClassifyEntry("1,2", "*", "*", "*", "*", Hour);
  }

  lemma DayExample()
    ensures CronType(Entry("1", "1", "*", "*", "*")) == Success(Day)
  {
    ClassifyEntry("1", "1", "*", "*", "*", Day);
  }

  lemma WeekExample()
    ensures CronType(Entry("1", "1", "*", "*", "1")) == Success(Week)
  {
    ClassifyEntry("1", "1", "*", "*", "1", Week);
  }

  lemma MonthExample()
    ensures CronType(Entry("1", "1", "1", "*", "*")) == Success(Month)
  {
    ClassifyEntry("1", "1", "1", "*", "*", Month);
  }

  lemma YearExample()
    ensures CronType(Entry("0", "0", "1", "1", "*")) == Success(Year)
  {
    ClassifyEntry("0", "0", "1", "1", "*", Year);
  }

  lemma YearListExample()
    ensures CronType(Entry("1,2", "0,1,2", "1,2", "1,2", "*")) == Success(Year)
  {
    ParseIntPrefix("1", ",2");
    ParseIntPrefix("0", ",1,2");
    ClassifyEntry("1,2", "0,1,2", "1,2", "1,2", "*", Year);
  }

  /** The fields of the week entry of test/test.js. */
  const WeekFields: seq<string> := ["0,15,30", "5", "*", "*", "1,2"]

  /** The week entry of test/test.js is classified as a week. */
  lemma WeekListExample()
    ensures CronType(Entry("0,15,30", "5", "*", "*", "1,2")) == Success(Week)
  {
    ParseIntPrefix("0", ",15,30");
    ParseIntPrefix("1", ",2");
    ClassifyEntry("0,15,30", "5", "*", "*", "1,2", Week);
  }

  /** Its fields are the five written. */
  lemma WeekListFields()
    ensures Fields(Entry("0,15,30", "5", "*", "*", "1,2")) == WeekFields
  {
    FieldsOfJoin(WeekFields);
  }

  /** The minutes of the week entry. */
  lemma MinutesListed()
    ensures IsList("0,15,30") && Listed("0,15,30") == [0, 15, 30]
  {
    var ps := ["0", "15", "30"];
    MinutePieces();
    ListedExample(ps, "0,15,30");
  }

  lemma MinutePieces()
    ensures Join(["0", "15", "30"], [',']) == "0,15,30"
    ensures IsNumber("0") && IsNumber("15") && IsNumber("30")
    ensures Numbers(["0", "15", "30"]) == [0, 15, 30]
  {
    assert Number("15") == 15 && Number("30") == 30;
  }

  /** The weekdays of the week entry. */
  lemma WeekdaysListed()
    ensures IsList("1,2") && Listed("1,2") == [1, 2]
  {
    assert Join(["1", "2"], [',']) == "1,2";
    ListedExample(["1", "2"], "1,2");
  }

  lemma HourListed()
    ensures IsList("5") && Listed("5") == [5]
  {
    ListedExample(["5"], "5");
  }

  /** A comma list written out piece by piece lists the pieces' numbers. */
  lemma ListedExample(ps: seq<string>, f: string)
    requires |ps| >= 1 && forall k :: 0 <= k < |ps| ==> IsNumber(ps[k])
    requires f == Join(ps, [','])
    ensures IsList(f) && Listed(f) == Numbers(ps)
  {
    assert forall k :: 0 <= k < |ps| ==> ',' !in ps[k];
    SplitJoin(ps, ',');
    ListPieces(f);
  }

  /** A valid entry whose shape is none of the six: test/test.js expects the unsupported-format error. */
  lemma UnsupportedExample()
    ensures CronType(Entry("1", "1", "1", "1", "1")) == Failure(UnsupportedFormat)
  {
    assert ParseInt("1") == 1;
    BothDaysUnsupported("1", "1", "1", "1", "1");
  }

  /** A field that may stand in column `i` of some well-formed entry, in range. */
  predicate FieldOk(f: string, i: nat)
    requires i < 5
  {
    ' ' !in f && IsField(f) && InRange(f, i)
  }

  /** No pattern of `combinations` has both a day of the month and a day of the week: such entries are unsupported. */
  lemma BothDaysUnsupported(m: string, h: string, dm: string, mo: string, dw: string)
    requires FieldOk(m, 0) && FieldOk(h, 1) && FieldOk(dm, 2) && FieldOk(mo, 3) && FieldOk(dw, 4)
    requires IsList(dm) && IsList(dw)
    ensures CronType(Entry(m, h, dm, mo, dw)) == Failure(UnsupportedFormat)
  {
    var d := [m, h, dm, mo, dw];
    forall i | 0 <= i < 5
      ensures FieldOk(d[i], i)
    {
      if i == 0 {
      } else if i == 1 {
      } else if i == 2 {
      } else if i == 3 {
      } else {
      }
    }
    BothDaysFields(d);
  }

  lemma BothDaysFields(d: seq<string>)
    requires |d| == 5 && (forall i :: 0 <= i < 5 ==> FieldOk(d[i], i)) && IsList(d[2]) && IsList(d[4])
    ensures CronType(Join(d, " ")) == Failure(UnsupportedFormat)
  {
    FieldsOfJoin(d);
    var s := Join(d, " ");
    assert WellFormed(s) && AllInRange(Fields(s));
    assert !IsList("*");
    forall t
      ensures !Matches(s, t)
    {
      assert !Pattern(t)[2] || !Pattern(t)[4];
    }
    CronTypeCases(s);
  }

  // The range check names the first offending column, counting from one.

  lemma MinuteOutOfRangeExample()
    ensures CronType(Entry("60", "*", "*", "*", "*")) == Failure(InvalidValue(1))
  {
    BadEntry(["60", "*", "*", "*", "*"], 0);
  }

  lemma HourOutOfRangeExample()
    ensures CronType(Entry("0", "24", "*", "*", "*")) == Failure(InvalidValue(2))
  {
    BadEntry(["0", "24", "*", "*", "*"], 1);
  }

  lemma DomOutOfRangeExample()
    ensures CronType(Entry("0", "0", "0", "*", "*")) == Failure(InvalidValue(3))
  {
    BadEntry(["0", "0", "0", "*", "*"], 2);
  }

  lemma MonthOutOfRangeExample()
    ensures CronType(Entry("0", "0", "1", "13", "*")) == Failure(InvalidValue(4))
  {
    BadEntry(["0", "0", "1", "13", "*"], 3);
  }

  lemma DowOutOfRangeExample()
    ensures CronType(Entry("0", "0", "*", "*", "7")) == Failure(InvalidValue(5))
  {
    BadEntry(["0", "0", "*", "*", "7"], 4);
  }

  /** Only the leading number of a list is range-checked: `0,99` passes as an hour entry. */
  lemma LeadingNumberOnlyExample()
    ensures CronType(Entry("0,99", "*", "*", "*", "*")) == Success(Hour)
  {
    assert IsList("0,99");
    ParseIntPrefix("0", ",99");
    ClassifyEntry("0,99", "*", "*", "*", "*", Hour);
  }

  /** An entry of well-formed fields whose first out-of-range column is `i` is rejected naming column `i + 1`. */
  lemma BadEntry(d: seq<string>, i: nat)
    requires |d| == 5 && forall k :: 0 <= k < 5 ==> ' ' !in d[k] && IsField(d[k])
    requires i < 5 && !InRange(d[i], i) && forall j :: 0 <= j < i ==> InRange(d[j], j)
    ensures CronType(Entry(d[0], d[1], d[2], d[3], d[4])) == Failure(InvalidValue(i + 1))
  {
    assert [d[0], d[1], d[2], d[3], d[4]] == d;
    FieldsOfJoin(d);
    var r := CronType(Join(d, " "));
    assert FirstBadColumn(d, 0) == Some(i) by {
      FirstBadColumnIs(d, 0, i);
    }
  }

  lemma {:induction false} FirstBadColumnIs(d: seq<string>, j: nat, i: nat)
    requires |d| == 5 && j <= i < 5
    requires !InRange(d[i], i) && forall k :: j <= k < i ==> InRange(d[k], k)
    ensures FirstBadColumn(d, j) == Some(i)
    decreases i - j
  {
    if j < i {
      FirstBadColumnIs(d, j + 1, i);
    }
  }
}
