/**
  The label gentleSelect shows for a select box (`getSelectedAsText`):
  the prompt when nothing is selected, otherwise the texts of the
  selected options, cut to `maxDisplay` entries, ordered by their leading
  number when every one starts with a digit, and joined by `<br/>`.
 */
module GentleLabel {
  import opened Text

  /** `/^[0-9]+/.test(t)`. */
  predicate StartsWithNumber(t: string) {
    |t| > 0 && IsDigit(t[0])
  }

  predicate AllNumeric(arr: seq<string>) {
    forall i :: 0 <= i < |arr| ==> StartsWithNumber(arr[i])
  }

  /** The number the numeric comparator subtracts: the value of the leading digit run. */
  function Key(t: string): nat {
    ParseInt(t)
  }

  predicate SortedByKey(s: seq<string>) {
    forall i, j :: 0 <= i < j < |s| ==> Key(s[i]) <= Key(s[j])
  }

  /** Whether the list is cut: `maxDisplay != 0 && length > maxDisplay`. */
  predicate Truncated(n: nat, maxDisplay: int) {
    maxDisplay != 0 && n > maxDisplay
  }

  /** How many entries survive: `slice(0, maxDisplay)` when truncated, which counts from the end for a negative bound. */
  function KeptCount(n: nat, maxDisplay: int): (k: nat)
    ensures k <= n
  {
    if !Truncated(n, maxDisplay) then n
    else if maxDisplay >= 0 then maxDisplay
    else if n + maxDisplay >= 0 then n + maxDisplay
    else 0
  }

  /** Places `x` before the first entry with a larger or equal key. */
  function Insert(x: string, s: seq<string>): (r: seq<string>)
    ensures multiset(r) == multiset(s) + multiset{x}
    ensures |r| == |s| + 1
    decreases |s|
  {
    if |s| == 0 || Key(x) <= Key(s[0]) then [x] + s
    else
      assert s == [s[0]] + s[1..];
      [s[0]] + Insert(x, s[1..])
  }

  /** Inserting into a list sorted by key keeps it sorted. */
  lemma {:induction false} InsertSorted(x: string, s: seq<string>)
    requires SortedByKey(s)
    ensures SortedByKey(Insert(x, s))
    decreases |s|
  {
    if |s| > 0 && Key(x) > Key(s[0]) {
      InsertSorted(x, s[1..]);
      var rest := Insert(x, s[1..]);
      forall i | 0 <= i < |rest|
        ensures Key(s[0]) <= Key(rest[i])
      {
        assert rest[i] in multiset(rest);
        assert rest[i] == x || rest[i] in multiset(s[1..]);
        if rest[i] != x {
          var j :| 0 <= j < |s[1..]| && s[1..][j] == rest[i];
          assert s[1 + j] == rest[i];
        }
      }
      assert Insert(x, s) == [s[0]] + rest;
    }
  }

  /** The numeric order `arr.sort(cmp)` produces: insertion sort on the leading number, stable. */
  function SortByKey(s: seq<string>): (r: seq<string>)
    ensures multiset(r) == multiset(s)
    ensures SortedByKey(r)
    ensures |r| == |s|
    decreases |s|
  {
    if |s| == 0 then []
    else
      assert s == [s[0]] + s[1..];
      InsertSorted(s[0], SortByKey(s[1..]));
      Insert(s[0], SortByKey(s[1..]))
  }

  /**
    The entries of the label: the first `KeptCount` texts, sorted by their
    leading number when all of them start with a digit and otherwise kept
    in the order given, then "..." when the list was cut.
   */
  function Entries(texts: seq<string>, maxDisplay: int): (r: seq<string>)
    ensures var k := KeptCount(|texts|, maxDisplay);
      && |r| == k + (if Truncated(|texts|, maxDisplay) then 1 else 0)
      && multiset(r[..k]) == multiset(texts[..k])
      && (AllNumeric(texts[..k]) ==> SortedByKey(r[..k]))
      && (!AllNumeric(texts[..k]) ==> r[..k] == texts[..k])
      && (Truncated(|texts|, maxDisplay) ==> r[k] == "...")
  {
    var k := KeptCount(|texts|, maxDisplay);
    var arr := texts[..k];
    var sorted := if AllNumeric(arr) then SortByKey(arr) else arr;
    var r := sorted + (if Truncated(|texts|, maxDisplay) then ["..."] else []);
    assert r[..k] == sorted;
    r
  }

  /** `getSelectedAsText` on the texts of the selected options, in document order. */
  function SelectedAsText(texts: seq<string>, prompt: string, maxDisplay: int): string {
    if |texts| < 1 then prompt else Join(Entries(texts, maxDisplay), "<br/>")
  }

  /**
    The function as written: the entries are mapped, the all-numeric flag is
    found by a loop that stops at the first text not starting with a digit,
    then the entries are sorted, marked and joined.
   */
  method GetSelectedAsText(texts: seq<string>, prompt: string, maxDisplay: int) returns (shown: string)
    ensures shown == SelectedAsText(texts, prompt, maxDisplay)
  {
    if |texts| < 1 {
      return prompt;
    }
    var isTruncated;
    var arr;
    if maxDisplay != 0 && |texts| > maxDisplay {
      arr := texts[..KeptCount(|texts|, maxDisplay)];
      isTruncated := true;
    } else {
      assert texts[..|texts|] == texts;
      arr := texts;
      isTruncated := false;
    }
    assert arr == texts[..KeptCount(|texts|, maxDisplay)];
    assert isTruncated == Truncated(|texts|, maxDisplay);
    var isAllNumeric := true;
    var i := 0;
    while i < |arr|
      invariant 0 <= i <= |arr|
      invariant isAllNumeric <==> AllNumeric(arr[..i])
      invariant !isAllNumeric ==> !AllNumeric(arr)
    {
      if !StartsWithNumber(arr[i]) {
        isAllNumeric := false;
        break;
      }
      i := i + 1;
    }
    assert isAllNumeric ==> arr[..i] == arr;
    ghost var kept := arr;
    if isAllNumeric {
      arr := SortByKey(arr);
    }
    assert arr == if AllNumeric(kept) then SortByKey(kept) else kept;
    if isTruncated {
      arr := arr + ["..."];
    }
    assert arr == Entries(texts, maxDisplay);
    shown := Join(arr, "<br/>");
  }

  // What the label shows.

  /** No selection shows the prompt; `maxDisplay` 0 shows every entry; a cut keeps the first `maxDisplay`. */
  lemma {:induction false} LabelCases(texts: seq<string>, prompt: string, maxDisplay: int)
    ensures |texts| == 0 ==> SelectedAsText(texts, prompt, maxDisplay) == prompt
    ensures maxDisplay == 0 ==> |Entries(texts, maxDisplay)| == |texts| && multiset(Entries(texts, maxDisplay)) == multiset(texts)
    ensures 0 < maxDisplay < |texts| ==>
              |Entries(texts, maxDisplay)| == maxDisplay + 1 &&
              multiset(Entries(texts, maxDisplay)[..maxDisplay]) == multiset(texts[..maxDisplay]) &&
              Entries(texts, maxDisplay)[maxDisplay] == "..."
  {
    var e := Entries(texts, maxDisplay);
    if maxDisplay == 0 {
      assert e[..|texts|] == e && texts[..|texts|] == texts;
    }
  }

  /** Numeric labels come out in ascending order of their leading number whatever order they were selected in. */
  lemma {:induction false} NumericLabelsSorted(texts: seq<string>)
    requires AllNumeric(texts)
    ensures SortedByKey(Entries(texts, 0)) && multiset(Entries(texts, 0)) == multiset(texts)
  {
    var e := Entries(texts, 0);
    assert e[..|texts|] == e && texts[..|texts|] == texts;
  }

  /** Two weekday labels are shown in the order given. */
  lemma DayNamesExample()
    ensures SelectedAsText(["Monday", "Tuesday"], "Make A Selection", 0) == "Monday<br/>Tuesday"
  {
    var t := ["Monday", "Tuesday"];
    assert !StartsWithNumber(t[0]);
    assert t[..2] == t;
  }
}
