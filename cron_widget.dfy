/**
  The jquery-cron widget: a period select and six editing blocks, each a
  multiple select over one option table. The model keeps, per block, which
  options are selected; the selected period; which blocks (with their
  text before and after) are shown; and what `init` stores on the element.
 */
module CronWidget {
  import opened Text
  import opened Results
  import opened CronGrammar
  import opened CronTables
  import opened GentleOptions
  import opened GentleSelect
  import opened GentleGrid

  // The display matrix `toDisplay`.

  /** The blocks a period edits, in the order `value` updates them. */
  function Display(t: Shape): (bs: seq<Block>)
    ensures forall i, j :: 0 <= i < j < |bs| ==> bs[i] != bs[j]
    ensures forall b :: b in bs ==> Pattern(t)[Column(b)]
  {
    match t
    case Minute => []
    case Hour => [Mins]
    case Day => [TimeHrs, TimeMins]
    case Week => [Dow, TimeHrs, TimeMins]
    case Month => [Dom, TimeHrs, TimeMins]
    case Year => [Dom, Block.Month, TimeHrs, TimeMins]
  }

  /** The block of period `t` that edits column `c`. */
  function BlockOf(t: Shape, c: nat): (b: Block)
    requires c < 5 && Pattern(t)[c]
    ensures b in Display(t) && Column(b) == c
  {
    if c == 0 then (if t == Hour then Mins else TimeMins)
    else if c == 1 then TimeHrs
    else if c == 2 then Dom
    else if c == 3 then Block.Month
    else Dow
  }

  /** `toDisplay` agrees with `combinations`: a period edits exactly the columns its pattern makes concrete. */
  lemma DisplayMatchesPattern(t: Shape)
    ensures forall c :: 0 <= c < 5 && Pattern(t)[c] ==> exists b :: b in Display(t) && Column(b) == c
  {
    forall c | 0 <= c < 5 && Pattern(t)[c]
      ensures exists b :: b in Display(t) && Column(b) == c
    {
      var b := BlockOf(t, c);
    }
  }

  /** Every block's selection, one flag per option of its table. */
  predicate WellSized(sel: map<Block, seq<bool>>) {
    (forall b: Block :: b in sel) && forall b :: b in sel ==> |sel[b]| == |Table(b)|
  }

  const BlockSet: set<Block> := {Dom, Block.Month, Mins, Dow, TimeHrs, TimeMins}

  lemma EveryBlock(b: Block)
    ensures b in BlockSet
  {
    match b
    case Dom =>
    case Month =>
    case Mins =>
    case Dow =>
    case TimeHrs =>
    case TimeMins =>
  }

  // Reading the blocks back: `getCurrentValue`.

  /** The option values of a block, in document order. */
  function Values(b: Block): (vs: seq<string>)
    ensures |vs| == |Table(b)| && forall k :: 0 <= k < |vs| ==> vs[k] == Table(b)[k].value
  {
    seq(|Table(b)|, k requires 0 <= k < |Table(b)| => Table(b)[k].value)
  }

  /** `block[b].find("select").val()` written into the string: the selected values joined by commas. */
  function Read(b: Block, flags: seq<bool>): string
    requires |flags| == |Table(b)|
  {
    Join(Picked(Values(b), flags), ",")
  }

  /** The five fields `getCurrentValue` joins for the period `t`, as its switch assigns them. */
  function FieldsFor(t: Shape, sel: map<Block, seq<bool>>): (fs: seq<string>)
    requires WellSized(sel)
    ensures |fs| == 5
  {
    var min := if t == Minute then "*" else if t == Hour then Read(Mins, sel[Mins]) else Read(TimeMins, sel[TimeMins]);
    var hour := if t == Minute || t == Hour then "*" else Read(TimeHrs, sel[TimeHrs]);
    var day := if t == Shape.Month || t == Year then Read(Dom, sel[Dom]) else "*";
    var month := if t == Year then Read(Block.Month, sel[Block.Month]) else "*";
    var dow := if t == Week then Read(Dow, sel[Dow]) else "*";
    [min, hour, day, month, dow]
  }

  /** `getCurrentValue`: a custom period's value verbatim, otherwise the five fields joined by spaces. */
  function Serialize(period: string, sel: map<Block, seq<bool>>): string
    requires WellSized(sel)
  {
    match ShapeNamed(period)
    case None => period
    case Some(t) => Join(FieldsFor(t, sel), " ")
  }

  /** A `\d{1,2}` option value reads back as its number. */
  lemma DecimalIsNumber(v: nat)
    requires v < 100
    ensures IsNumber(Decimal(v)) && Number(Decimal(v)) == v
  {
    NumberIsNumValue(Decimal(v));
    NumValueOfDecimal(v);
  }

  /** Numbers joined by commas form a list naming those numbers. */
  lemma JoinNumbers(ps: seq<string>)
    requires |ps| >= 1 && forall k :: 0 <= k < |ps| ==> IsNumber(ps[k])
    ensures IsList(Join(ps, ",")) && Listed(Join(ps, ",")) == Numbers(ps)
  {
    assert forall k :: 0 <= k < |ps| ==> ',' !in ps[k] by {
      forall k | 0 <= k < |ps|
        ensures ',' !in ps[k]
      {
        assert AllDigits(ps[k]);
      }
    }
    SplitJoin(ps, ',');
    ListPieces(Join(ps, ","));
  }

  /**
    A block read back is a field `getCronType` accepts for the block's
    column when something is selected, and the empty string otherwise.
   */
  lemma {:induction false} ReadField(b: Block, flags: seq<bool>)
    requires |flags| == |Table(b)|
    ensures var f := Read(b, flags);
      ' ' !in f &&
      (AnySelected(flags) ==> IsList(f) && InRange(f, Column(b))) &&
      (!AnySelected(flags) ==> f == "")
  {
    var ps := Picked(Values(b), flags);
    PickedNumbers(b, flags, ps);
    forall k | 0 <= k < |ps|
      ensures ' ' !in ps[k]
    {
      assert AllDigits(ps[k]);
    }
    JoinChars(ps, ",", ' ');
    if AnySelected(flags) {
      JoinNumbers(ps);
      ParseIntOfList(Join(ps, ","));
    }
  }

  /** The values picked from a block are numbers within its column's range. */
  lemma PickedNumbers(b: Block, flags: seq<bool>, ps: seq<string>)
    requires |flags| == |Table(b)| && ps == Picked(Values(b), flags)
    ensures forall k :: 0 <= k < |ps| ==> IsNumber(ps[k]) && MinVal[Column(b)] <= Number(ps[k]) <= MaxVal[Column(b)]
  {
    var vs := Values(b);
    forall k | 0 <= k < |ps|
      ensures IsNumber(ps[k]) && MinVal[Column(b)] <= Number(ps[k]) <= MaxVal[Column(b)]
    {
      assert ps[k] in ps;
      var i :| 0 <= i < |vs| && flags[i] && vs[i] == ps[k];
      ValueNumber(b, i);
    }
  }

  /** The value of option `i` of a block is the number `minval + i`, within the column's range. */
  lemma ValueNumber(b: Block, i: nat)
    requires i < |Table(b)|
    ensures IsNumber(Values(b)[i]) && Number(Values(b)[i]) == MinVal[Column(b)] + i <= MaxVal[Column(b)]
  {
    TableLength(b);
    DecimalIsNumber(MinVal[Column(b)] + i);
  }

  /**
    `getCurrentValue` writes `*` in every column the period does not edit
    and the read-back block in every column it does.
   */
  lemma {:induction false} SerializeFields(period: string, sel: map<Block, seq<bool>>)
    requires WellSized(sel)
    ensures ShapeNamed(period).None? ==> Serialize(period, sel) == period
    ensures ShapeNamed(period).Some? ==>
              var t := ShapeNamed(period).value;
              var fs := Fields(Serialize(period, sel));
              |fs| == 5 &&
              forall c :: 0 <= c < 5 ==>
                fs[c] == (if Pattern(t)[c] then Read(BlockOf(t, c), sel[BlockOf(t, c)]) else "*")
  {
    if ShapeNamed(period).Some? {
      var t := ShapeNamed(period).value;
      var fs := FieldsFor(t, sel);
      forall c | 0 <= c < 5
        ensures ' ' !in fs[c]
        ensures fs[c] == (if Pattern(t)[c] then Read(BlockOf(t, c), sel[BlockOf(t, c)]) else "*")
      {
        FieldsForColumn(t, sel, c);
        if Pattern(t)[c] {
          ReadField(BlockOf(t, c), sel[BlockOf(t, c)]);
        }
      }
      FieldsOfJoin(fs);
    }
  }

  lemma FieldsForColumn(t: Shape, sel: map<Block, seq<bool>>, c: nat)
    requires WellSized(sel) && c < 5
    ensures FieldsFor(t, sel)[c] == (if Pattern(t)[c] then Read(BlockOf(t, c), sel[BlockOf(t, c)]) else "*")
  {
    if c == 0 {
      MinuteField(t, sel);
    } else if c == 1 {
      HourField(t, sel);
    } else {
      DateField(t, sel, c);
    }
  }

  lemma MinuteField(t: Shape, sel: map<Block, seq<bool>>)
    requires WellSized(sel)
    ensures FieldsFor(t, sel)[0] == (if Pattern(t)[0] then Read(BlockOf(t, 0), sel[BlockOf(t, 0)]) else "*")
  {
    match t
    case Minute => {}
    case Hour => {}
    case _ => assert Pattern(t)[0] && BlockOf(t, 0) == TimeMins;
  }

  lemma HourField(t: Shape, sel: map<Block, seq<bool>>)
    requires WellSized(sel)
    ensures FieldsFor(t, sel)[1] == (if Pattern(t)[1] then Read(BlockOf(t, 1), sel[BlockOf(t, 1)]) else "*")
  {
    if t == Minute || t == Hour {
      assert !Pattern(t)[1];
    } else {
      assert Pattern(t)[1];
    }
  }

  lemma DateField(t: Shape, sel: map<Block, seq<bool>>, c: nat)
    requires WellSized(sel) && 2 <= c < 5
    ensures FieldsFor(t, sel)[c] == (if Pattern(t)[c] then Read(BlockOf(t, c), sel[BlockOf(t, c)]) else "*")
  {
    if c == 2 {
      assert Pattern(t)[2] <==> t == Shape.Month || t == Year;
    } else if c == 3 {
      assert Pattern(t)[3] <==> t == Year;
    } else {
      assert Pattern(t)[4] <==> t == Week;
    }
  }

  // Writing a string into the blocks: `methods.value`.

  /**
    `.val(field)` on a block's multiple select, assumed to select exactly
    the options whose value is one of the numbers the field lists.
   */
  function SelectListed(b: Block, f: string): (flags: seq<bool>)
    requires IsList(f)
    ensures |flags| == |Table(b)|
  {
    seq(|Table(b)|, k requires 0 <= k < |Table(b)| => MinVal[Column(b)] + k in Listed(f))
  }

  /** The option `k` is selected exactly when its value is the decimal text of a listed number. */
  lemma SelectListedValues(b: Block, f: string, k: nat)
    requires IsList(f) && k < |Table(b)|
    ensures SelectListed(b, f)[k] <==> exists j :: 0 <= j < |Listed(f)| && Table(b)[k].value == Decimal(Listed(f)[j])
  {
    var L := Listed(f);
    var v := MinVal[Column(b)] + k;
    SelectListedAt(b, f, k);
    forall j | 0 <= j < |L|
      ensures Table(b)[k].value == Decimal(L[j]) <==> L[j] == v
    {
      OptionOfValue(b, L[j], k);
    }
    if v in L {
      var j :| 0 <= j < |L| && L[j] == v;
    }
  }

  /**
    The `time-mins` loop: for each listed minute, the first option whose
    label contains it is set selected; nothing is cleared.
   */
  function Marked(flags: seq<bool>, pieces: seq<string>): (r: seq<bool>)
    requires |flags| == |Table(TimeMins)|
    ensures |r| == |flags|
  {
    seq(|flags|, k requires 0 <= k < |flags| => flags[k] || Hit(Table(TimeMins), pieces, k))
  }

  /** Some listed minute's lookup in `opts` finds the option `k`. */
  predicate Hit(opts: seq<Opt>, pieces: seq<string>, k: nat) {
    exists j :: 0 <= j < |pieces| && FirstContaining(opts, pieces[j]) == Some(k)
  }

  /** One more piece looked up: an option is hit when it was before or the new piece finds it. */
  lemma HitStep(opts: seq<Opt>, pieces: seq<string>, j: nat, k: nat)
    requires j < |pieces|
    ensures Hit(opts, pieces[..j + 1], k) <==> Hit(opts, pieces[..j], k) || FirstContaining(opts, pieces[j]) == Some(k)
  {
    var p, q := pieces[..j], pieces[..j + 1];
    assert q == p + [pieces[j]];
    HitAppend(opts, p, pieces[j], k);
  }

  lemma HitAppend(opts: seq<Opt>, p: seq<string>, x: string, k: nat)
    ensures Hit(opts, p + [x], k) <==> Hit(opts, p, k) || FirstContaining(opts, x) == Some(k)
  {
    var q := p + [x];
    if Hit(opts, p, k) {
      var i :| 0 <= i < |p| && FirstContaining(opts, p[i]) == Some(k);
      assert q[i] == p[i];
    }
    if FirstContaining(opts, x) == Some(k) {
      assert q[|p|] == x;
    }
  }

  /** Nothing looked up, nothing hit. */
  lemma MarkedNothing(flags: seq<bool>, pieces: seq<string>)
    requires |flags| == |Table(TimeMins)| && |pieces| == 0
    ensures Marked(flags, pieces) == flags
  {
  }

  lemma MarkedStep(flags: seq<bool>, pieces: seq<string>, j: nat)
    requires |flags| == |Table(TimeMins)| && j < |pieces|
    ensures var hit := FirstContaining(Table(TimeMins), pieces[j]);
      var m := Marked(flags, pieces[..j]);
      Marked(flags, pieces[..j + 1]) == if hit.Some? then m[hit.value := true] else m
  {
    var hit := FirstContaining(Table(TimeMins), pieces[j]);
    var a, c := Marked(flags, pieces[..j]), Marked(flags, pieces[..j + 1]);
    forall k | 0 <= k < |flags|
      ensures c[k] == (if hit.Some? then a[hit.value := true] else a)[k]
    {
      HitStep(Table(TimeMins), pieces, j, k);
    }
  }

  /**
    For a list field, the minutes marked are the ones selected before and
    the listed minutes below 60.
   */
  lemma {:induction false} MarkedListed(flags: seq<bool>, f: string, k: nat)
    requires |flags| == |Table(TimeMins)| && IsList(f) && k < |flags|
    ensures Marked(flags, Split(f, ','))[k] <==> flags[k] || k in Listed(f)
  {
    var ps := Split(f, ',');
    var L := Listed(f);
    if k in L {
      var j :| 0 <= j < |L| && L[j] == k;
      MinuteLookup(ps[j]);
    }
    if !flags[k] && Marked(flags, ps)[k] {
      var j :| 0 <= j < |ps| && FirstContaining(Table(TimeMins), ps[j]) == Some(k);
      MinuteLookup(ps[j]);
      assert L[j] == k;
    }
  }

  /** Fields that fit the period `t`: a list in every column the period edits. */
  predicate Fits(t: Shape, d: seq<string>) {
    |d| == 5 && forall c :: 0 <= c < 5 && Pattern(t)[c] ==> IsList(d[c])
  }

  /**
    The new flags of block `b` when `value` writes the fields `d` into it.
    `value` only writes fields `getCronType` accepted, which are lists in
    every column written; a field that is not a list leaves the flags alone.
   */
  function Updated(flags: seq<bool>, b: Block, d: seq<string>): (r: seq<bool>)
    requires |flags| == |Table(b)| && |d| == 5
    ensures |r| == |Table(b)|
  {
    if !IsList(d[Column(b)]) then flags
    else if b == TimeMins then Marked(flags, Split(d[0], ','))
    else SelectListed(b, d[Column(b)])
  }

  /** The selection after `value` has written `d` into the blocks `bs`, one after the other. */
  function AfterTargets(sel: map<Block, seq<bool>>, d: seq<string>, bs: seq<Block>): (r: map<Block, seq<bool>>)
    requires WellSized(sel) && |d| == 5
    ensures WellSized(r)
    decreases |bs|
  {
    if |bs| == 0 then sel
    else
      var m := AfterTargets(sel, d, bs[..|bs| - 1]);
      var b := bs[|bs| - 1];
      m[b := Updated(m[b], b, d)]
  }

  /** One more block written: the step the loop of `value` takes. */
  lemma AfterTargetsStep(sel: map<Block, seq<bool>>, d: seq<string>, bs: seq<Block>, i: nat)
    requires WellSized(sel) && |d| == 5 && i < |bs|
    ensures var m := AfterTargets(sel, d, bs[..i]);
      AfterTargets(sel, d, bs[..i + 1]) == m[bs[i] := Updated(m[bs[i]], bs[i], d)]
  {
    assert bs[..i + 1][..i] == bs[..i];
  }

  /** Writing blocks one after the other leaves every other block as it was. */
  lemma {:induction false} AfterTargetsUntouched(sel: map<Block, seq<bool>>, d: seq<string>, bs: seq<Block>, b: Block)
    requires WellSized(sel) && |d| == 5 && b !in bs
    ensures AfterTargets(sel, d, bs)[b] == sel[b]
    decreases |bs|
  {
    if |bs| > 0 {
      var init := bs[..|bs| - 1];
      assert b !in init by {
        assert forall x :: x in init ==> x in bs;
      }
      AfterTargetsUntouched(sel, d, init, b);
    }
  }

  /** Writing distinct blocks one after the other gives each of them its new flags from the old ones. */
  lemma {:induction false} AfterTargetsWritten(sel: map<Block, seq<bool>>, d: seq<string>, bs: seq<Block>, b: Block)
    requires WellSized(sel) && |d| == 5 && b in bs
    requires forall i, j :: 0 <= i < j < |bs| ==> bs[i] != bs[j]
    ensures AfterTargets(sel, d, bs)[b] == Updated(sel[b], b, d)
    decreases |bs|
  {
    var init, last := bs[..|bs| - 1], bs[|bs| - 1];
    assert bs == init + [last];
    if b == last {
      AfterTargetsUntouched(sel, d, init, b);
    } else {
      AfterTargetsWritten(sel, d, init, b);
    }
  }

  /** The selection after `value` has written a string of shape `t` with fields `d`. */
  function AfterValue(sel: map<Block, seq<bool>>, t: Shape, d: seq<string>): (r: map<Block, seq<bool>>)
    requires WellSized(sel) && Fits(t, d)
    ensures WellSized(r)
  {
    AfterTargets(sel, d, Display(t))
  }

  /** A classified string fits its shape. */
  lemma ClassifiedFits(s: string)
    requires CronType(s).Success?
    ensures Fits(CronType(s).value, Fields(s))
  {
  }

  /**
    What `value` does to the blocks: a block of the period selects exactly
    the listed values, the `time-mins` block adds the listed minutes to
    what it had, and every other block keeps its selection.
   */
  lemma {:induction false} AfterValueSelects(sel: map<Block, seq<bool>>, t: Shape, d: seq<string>, b: Block, k: nat)
    requires WellSized(sel) && Fits(t, d) && k < |Table(b)|
    ensures b !in Display(t) ==> AfterValue(sel, t, d)[b] == sel[b]
    ensures b in Display(t) && b != TimeMins ==>
              (AfterValue(sel, t, d)[b][k] <==> MinVal[Column(b)] + k in Listed(d[Column(b)]))
    ensures b in Display(t) && b == TimeMins ==>
              (AfterValue(sel, t, d)[b][k] <==> sel[b][k] || k in Listed(d[0]))
  {
    AfterValueAt(sel, t, d, b);
    if b in Display(t) {
      var f := d[Column(b)];
      if b == TimeMins {
        MarkedListed(sel[TimeMins], f, k);
      } else {
        SelectListedAt(b, f, k);
      }
    }
  }

  lemma SelectListedAt(b: Block, f: string, k: nat)
    requires IsList(f) && k < |Table(b)|
    ensures SelectListed(b, f)[k] <==> MinVal[Column(b)] + k in Listed(f)
  {
  }

  lemma AfterValueAt(sel: map<Block, seq<bool>>, t: Shape, d: seq<string>, b: Block)
    requires WellSized(sel) && Fits(t, d)
    ensures b !in Display(t) ==> AfterValue(sel, t, d)[b] == sel[b]
    ensures b in Display(t) ==> Pattern(t)[Column(b)] && AfterValue(sel, t, d)[b] == Updated(sel[b], b, d)
  {
    DisplayMatchesPattern(t);
    if b in Display(t) {
      AfterTargetsWritten(sel, d, Display(t), b);
    } else {
      AfterTargetsUntouched(sel, d, Display(t), b);
    }
  }

  /** After `value`, every block of the period has something selected. */
  lemma AfterValueNonEmpty(sel: map<Block, seq<bool>>, t: Shape, d: seq<string>, b: Block)
    requires WellSized(sel) && Fits(t, d) && AllInRange(d) && b in Display(t)
    ensures AnySelected(AfterValue(sel, t, d)[b])
  {
    AfterValueAt(sel, t, d, b);
    UpdatedNonEmpty(sel[b], b, d);
  }

  /** Writing a list whose first number is in range selects at least that number's option. */
  lemma UpdatedNonEmpty(flags: seq<bool>, b: Block, d: seq<string>)
    requires |flags| == |Table(b)| && |d| == 5 && IsList(d[Column(b)]) && InRange(d[Column(b)], Column(b))
    ensures AnySelected(Updated(flags, b, d))
  {
    var f := d[Column(b)];
    ParseIntOfList(f);
    var v0 := Listed(f)[0];
    TableLength(b);
    if b == TimeMins {
      MarkedListed(flags, f, v0);
      assert Updated(flags, b, d)[v0];
    } else {
      var k := v0 - MinVal[Column(b)];
      SelectListedAt(b, f, k);
      assert Updated(flags, b, d)[k];
    }
  }

  /**
    Whatever the blocks held before, reading the widget back after `value`
    accepted a string gives a string `getCronType` classifies as the same
    period.
   */
  lemma {:induction false} ValueRoundTrip(sel: map<Block, seq<bool>>, s: string)
    requires WellSized(sel) && CronType(s).Success?
    ensures var t := CronType(s).value;
      CronType(Serialize(Name(t), AfterValue(sel, t, Fields(s)))) == Success(t)
  {
    ClassifiedFits(s);
    var t := CronType(s).value;
    ClassifiedExactly(s, t);
    var sel' := AfterValue(sel, t, Fields(s));
    var out := Serialize(Name(t), sel');
    ShapeNamedName(t);
    SerializeFields(Name(t), sel');
    var fs := Fields(out);
    forall c | 0 <= c < 5
      ensures IsField(fs[c]) && InRange(fs[c], c) && (if Pattern(t)[c] then IsList(fs[c]) else fs[c] == "*")
    {
      if Pattern(t)[c] {
        var b := BlockOf(t, c);
        AfterValueNonEmpty(sel, t, Fields(s), b);
        ReadField(b, sel'[b]);
      }
    }
    assert WellFormed(out) && AllInRange(fs) && Matches(out, t);
    ClassifiedExactly(out, t);
  }

  /** Week-period fields listing the numbers of the week entry of test/test.js. */
  predicate WeekLike(d: seq<string>) {
    Fits(Week, d) && IsList(d[0]) && IsList(d[1]) && IsList(d[4]) &&
    Listed(d[0]) == [0, 15, 30] && Listed(d[1]) == [5] && Listed(d[4]) == [1, 2]
  }

  /**
    That entry written into freshly built blocks: the `time-mins` block ends
    with 00, 15 and 30 selected, the label test/test.js expects as `001530`.
   */
  lemma WeekMinutes(sel: map<Block, seq<bool>>, d: seq<string>, k: nat)
    requires FirstOnly(sel) && WeekLike(d) && k < 60
    ensures |AfterValue(sel, Week, d)[TimeMins]| == 60
    ensures AfterValue(sel, Week, d)[TimeMins][k] <==> k == 0 || k == 15 || k == 30
  {
    WeekMinutesListed(sel, d, k);
    assert k in Listed(d[0]) <==> k == 0 || k == 15 || k == 30;
  }

  lemma WeekMinutesListed(sel: map<Block, seq<bool>>, d: seq<string>, k: nat)
    requires FirstOnly(sel) && Fits(Week, d) && k < 60
    ensures |AfterValue(sel, Week, d)[TimeMins]| == 60
    ensures AfterValue(sel, Week, d)[TimeMins][k] <==> k == 0 || k in Listed(d[0])
  {
    TableLength(TimeMins);
    assert TimeMins in Display(Week);
    AfterValueSelects(sel, Week, d, TimeMins, k);
    assert sel[TimeMins][k] <==> k == 0;
  }

  /** The fields of the week entry are such fields. */
  lemma WeekFieldsLike()
    ensures WeekLike(WeekFields)
  {
    var d := WeekFields;
    MinutesListed();
    HourListed();
    WeekdaysListed();
    assert d[0] == "0,15,30" && d[1] == "5" && d[4] == "1,2";
    forall c | 0 <= c < 5 && Pattern(Week)[c]
      ensures IsList(d[c])
    {
      assert c == 0 || c == 1 || c == 4;
    }
  }

  // Which blocks are shown: `periodChanged`.

  datatype Part = Before | Body | After

  /** One `.cron-block` element: a block's select, or the text before or after it. */
  datatype Cell = Cell(block: Block, part: Part)

  /** The elements `periodChanged` shows for a block; only `mins` has text after it. */
  function CellsOf(b: Block): set<Cell> {
    {Cell(b, Before), Cell(b, Body)} + (if b == Mins then {Cell(b, After)} else {})
  }

  function Shown(bs: seq<Block>): set<Cell>
    decreases |bs|
  {
    if |bs| == 0 then {} else Shown(bs[..|bs| - 1]) + CellsOf(bs[|bs| - 1])
  }

  /** The elements shown for `period`: those of its blocks, or none for a custom period. */
  function VisibleFor(period: string): set<Cell> {
    match ShapeNamed(period)
    case None => {}
    case Some(t) => Shown(Display(t))
  }

  lemma {:induction false} ShownCells(bs: seq<Block>, x: Cell)
    ensures x in Shown(bs) <==> x.block in bs && (x.part != After || x.block == Mins)
    decreases |bs|
  {
    if |bs| > 0 {
      var init := bs[..|bs| - 1];
      ShownCells(init, x);
      assert bs == init + [bs[|bs| - 1]];
    }
  }

  /** After `periodChanged` an element is shown exactly when its block is in `toDisplay[period]`. */
  lemma VisibleExactly(period: string, x: Cell)
    ensures x in VisibleFor(period) <==>
              ShapeNamed(period).Some? && x.block in Display(ShapeNamed(period).value) &&
              (x.part != After || x.block == Mins)
  {
    if ShapeNamed(period).Some? {
      ShownCells(Display(ShapeNamed(period).value), x);
    }
  }

  // Setting up: `hasError` and `init`.

  /** `options.customValues`: absent, an object (its keys and values, in order), or something else. */
  datatype CustomValues = NoCustom | CustomObject(entries: seq<(string, string)>) | NotAnObject

  datatype InitError = BadInitial(error: CronError) | BadCustomValues

  /** `hasError`: the initial value must classify, and `customValues` must be undefined or an object. */
  function HasError(initial: string, cv: CustomValues): (r: Option<InitError>)
    ensures r.None? <==> CronType(initial).Success? && !cv.NotAnObject?
  {
    if CronType(initial).Failure? then Some(BadInitial(CronType(initial).error))
    else if cv.NotAnObject? then Some(BadCustomValues)
    else None
  }

  function CustomEntries(cv: CustomValues): seq<(string, string)> {
    if cv.CustomObject? then cv.entries else []
  }

  /** A freshly built block: `gentleSelect`'s `init` selects its first option. */
  function FreshFlags(b: Block): (flags: seq<bool>)
    ensures |flags| == |Table(b)|
  {
    DefaultSelection(seq(|Table(b)|, _ => false))
  }

  function FreshSelection(): (sel: map<Block, seq<bool>>)
    ensures WellSized(sel)
  {
    assert forall b: Block :: b in BlockSet by {
      forall b: Block
        ensures b in BlockSet
      {
        EveryBlock(b);
      }
    }
    map b: Block | b in BlockSet :: FreshFlags(b)
  }

  /** Every block has exactly its first option selected, as in freshly built blocks. */
  predicate FirstOnly(sel: map<Block, seq<bool>>) {
    WellSized(sel) && forall b, k :: b in sel && 0 <= k < |sel[b]| ==> (sel[b][k] <==> k == 0)
  }

  lemma FreshIsFirstOnly()
    ensures FirstOnly(FreshSelection())
  {
    var sel := FreshSelection();
    forall b, k | b in sel && 0 <= k < |sel[b]|
      ensures sel[b][k] <==> k == 0
    {
      FreshFirstOnly(b, k);
    }
  }

  lemma FreshFirstOnly(b: Block, k: nat)
    requires k < |Table(b)|
    ensures FreshFlags(b)[k] <==> k == 0
  {
    var none := seq(|Table(b)|, _ => false);
    assert !AnySelected(none);
  }

  const AllBlocks: seq<Block> := [Dom, Block.Month, Mins, Dow, TimeHrs, TimeMins]

  /** What `value` returns: the read-back string, the rejection, or the element itself after an update. */
  datatype Outcome = Got(value: string) | Rejected(error: CronError) | Done

  class Widget {
    var mounted: bool
    var custom: seq<(string, string)>
    var period: string
    var selected: map<Block, seq<bool>>
    var visible: set<Cell>
    var currentValue: string

    predicate Valid()
      reads this
    {
      mounted ==> WellSized(selected)
    }

    /** The element `$('#cron')` before `cron` is applied to it. */
    constructor ()
      ensures Valid() && !mounted
    {
      mounted := false;
      custom := [];
      period := "";
      selected := map[];
      visible := {};
      currentValue := "";
    }

    /** `getCurrentValue` on the widget's state. */
    function CurrentValue(): string
      reads this
      requires mounted && Valid()
    {
      Serialize(period, selected)
    }

    /**
      `init`: check the initial value and `customValues`, build the blocks
      (each with its first option selected) and the period select (custom
      entries first), remember the initial value, and set it.
     */
    method Init(initial: string, cv: CustomValues) returns (err: Option<InitError>)
      requires Valid() && !mounted
      modifies this
      ensures err == HasError(initial, cv)
      ensures err.Some? ==> unchanged(this)
      ensures err.None? ==>
                var t := CronType(initial).value;
                mounted && Valid() && custom == CustomEntries(cv) && currentValue == initial &&
                period == Name(t) && visible == VisibleFor(period) &&
                selected == AfterValue(FreshSelection(), t, Fields(initial))
    {
      var t := GetCronType(initial);
      if t.Failure? {
        return Some(BadInitial(t.error));
      }
      if cv.NotAnObject? {
        return Some(BadCustomValues);
      }
      err := None;
      custom := CustomEntries(cv);
      var periods := PeriodOptions(custom);
      assert |periods| >= 1 by {
        PeriodTableShapes(custom, Minute);
      }
      period := periods[0].value;
      selected := FreshSelection();
      visible := Shown(AllBlocks);
      mounted := true;
      currentValue := initial;
      var r := Value(initial);
    }

    /** `update` of the `time-mins` block for each of the listed minutes. */
    method MarkMinutes(pieces: seq<string>)
      requires mounted && Valid()
      modifies this
      ensures Valid() && selected == old(selected)[TimeMins := Marked(old(selected)[TimeMins], pieces)]
      ensures mounted == old(mounted) && custom == old(custom) && period == old(period)
      ensures visible == old(visible) && currentValue == old(currentValue)
    {
      var flags := selected[TimeMins];
      MarkedNothing(flags, pieces[..0]);
      for j := 0 to |pieces|
        invariant flags == Marked(old(selected)[TimeMins], pieces[..j])
        modifies {}
      {
        MarkedStep(old(selected)[TimeMins], pieces, j);
        var hit := FirstContaining(Table(TimeMins), pieces[j]);
        if hit.Some? {
          flags := flags[hit.value := true];
        }
      }
      assert pieces[..|pieces|] == pieces;
      selected := selected[TimeMins := flags];
    }

    /**
      `value`: with no argument, `getCurrentValue`; with a string
      `getCronType` rejects, nothing changes; otherwise each block of the
      string's period takes its field, and the period select is set.
     */
    method Value(s: string) returns (r: Outcome)
      requires mounted && Valid()
      modifies this
      ensures Valid() && mounted && custom == old(custom) && currentValue == old(currentValue)
      ensures s == "" ==> r == Got(old(Serialize(period, selected))) && unchanged(this)
      ensures s != "" && CronType(s).Failure? ==> r == Rejected(CronType(s).error) && unchanged(this)
      ensures s != "" && CronType(s).Success? ==>
                var t := CronType(s).value;
                r == Done && period == Name(t) && visible == VisibleFor(period) &&
                selected == AfterValue(old(selected), t, Fields(s))
    {
      if s == "" {
        return Got(CurrentValue());
      }
      var t := GetCronType(s);
      if t.Failure? {
        return Rejected(t.error);
      }
      ClassifiedFits(s);
      WriteTargets(t.value, Split(s, ' '));
      period := Name(t.value);
      PeriodChanged();
      r := Done;
    }

    /** The loop of `value` over the blocks `toDisplay` lists for the period, writing each its field. */
    method WriteTargets(shape: Shape, d: seq<string>)
      requires mounted && Valid() && Fits(shape, d)
      modifies this
      ensures Valid() && selected == AfterValue(old(selected), shape, d)
      ensures mounted == old(mounted) && custom == old(custom) && period == old(period)
      ensures visible == old(visible) && currentValue == old(currentValue)
    {
      var targets := Display(shape);
      for i := 0 to |targets|
        invariant Valid() && mounted == old(mounted) && custom == old(custom)
        invariant period == old(period) && visible == old(visible) && currentValue == old(currentValue)
        invariant selected == AfterTargets(old(selected), d, targets[..i])
      {
        AfterTargetsStep(old(selected), d, targets, i);
        WriteBlock(targets[i], d);
      }
      assert targets[..|targets|] == targets;
    }

    /** One target of `value`: the `time-mins` lookups, or `.val(field)` on the block's select. */
    method WriteBlock(tgt: Block, d: seq<string>)
      requires mounted && Valid() && |d| == 5 && IsList(d[Column(tgt)])
      modifies this
      ensures Valid() && selected == old(selected)[tgt := Updated(old(selected)[tgt], tgt, d)]
      ensures mounted == old(mounted) && custom == old(custom) && period == old(period)
      ensures visible == old(visible) && currentValue == old(currentValue)
    {
      if tgt == TimeMins {
        MarkMinutes(Split(d[0], ','));
      } else {
        selected := selected[tgt := SelectListed(tgt, d[Column(tgt)])];
      }
    }

    /** `periodChanged`: hide every block, then show those `toDisplay` lists for the period. */
    method PeriodChanged()
      modifies this
      ensures visible == VisibleFor(period)
      ensures mounted == old(mounted) && custom == old(custom) && period == old(period)
      ensures selected == old(selected) && currentValue == old(currentValue)
    {
      visible := {};
      var named := ShapeNamed(period);
      if named.Some? {
        var b := Display(named.value);
        for i := 0 to |b|
          invariant visible == Shown(b[..i])
          invariant mounted == old(mounted) && custom == old(custom) && period == old(period)
          invariant selected == old(selected) && currentValue == old(currentValue)
        {
          assert b[..i + 1][..i] == b[..i];
          visible := visible + {Cell(b[i], Before)};
          visible := visible + {Cell(b[i], Body)};
          if b[i] == Mins {
            visible := visible + {Cell(b[i], After)};
          }
        }
        assert b[..|b|] == b;
      }
    }

    /** Choosing an entry of the period select, which fires `periodChanged`. */
    method SelectPeriod(p: string)
      requires mounted && Valid()
      requires exists k :: 0 <= k < |PeriodTable(custom)| && PeriodTable(custom)[k].value == p
      modifies this
      ensures Valid() && period == p && visible == VisibleFor(p)
      ensures mounted == old(mounted) && custom == old(custom)
      ensures selected == old(selected) && currentValue == old(currentValue)
    {
      period := p;
      PeriodChanged();
    }
  }

  // The gentleSelect options `init` gives each block, from the defaults.

  /** `$.extend({}, defaults.<block>Opts, defaults.effectOpts)` over the gentleSelect defaults. */
  function BlockOptions(b: Block): Config {
    var base := Defaults.(openSpeed := Num(400), closeSpeed := Num(400),
                          openEffect := Str("slide"), closeEffect := Str("slide"), hideOnMouseOut := Bool(true));
    match b
    case Mins => base.(minWidth := Num(100), itemWidth := Num(30), columns := Num(4), rows := Undefined,
                       title := Str("Minutes Past the Hour"))
    case TimeHrs => base.(minWidth := Num(100), itemWidth := Num(20), columns := Num(2), rows := Undefined,
                          title := Str("Time: Hour"))
    case Dom => base.(minWidth := Num(100), itemWidth := Num(30), columns := Undefined, rows := Num(10),
                      title := Str("Day of Month"))
    case Month => base.(minWidth := Num(100), itemWidth := Num(100), columns := Num(2), rows := Undefined,
                        title := Undefined)
    case Dow => base.(minWidth := Num(100), itemWidth := Undefined, columns := Undefined, rows := Undefined,
                      title := Undefined)
    case TimeMins => base.(minWidth := Num(100), itemWidth := Num(20), columns := Num(4), rows := Undefined,
                           title := Str("Time: Minute"))
  }

  /** The default block options pass gentleSelect's checks, and lay the blocks out in these grids. */
  lemma BlockOptionsAccepted(b: Block)
    ensures CheckOptions(BlockOptions(b)) == None
    ensures b == Dow <==> LayoutOf(BlockOptions(b)).None?
    ensures b == Mins || b == TimeMins ==> GridSize(|Table(b)|, LayoutOf(BlockOptions(b)).value) == (15, 4)
    ensures b == TimeHrs ==> GridSize(|Table(b)|, LayoutOf(BlockOptions(b)).value) == (12, 2)
    ensures b == Block.Month ==> GridSize(|Table(b)|, LayoutOf(BlockOptions(b)).value) == (6, 2)
    ensures b == Dom ==> GridSize(|Table(b)|, LayoutOf(BlockOptions(b)).value) == (10, 4)
  {
    CheckOptionsAcceptable(BlockOptions(b));
  }
}
