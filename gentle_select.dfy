/**
  A select box enhanced by gentleSelect: the underlying `<select>` (its
  options' values, texts and selected flags) and the replacement `init`
  builds for it (the label, the `selected` class of each option's list
  item, and the order of the list items in the dialog).
 */
module GentleSelect {
  import opened Results
  import opened GentleOptions
  import opened GentleLabel
  import opened GentleGrid

  predicate AnySelected(flags: seq<bool>) {
    exists k :: 0 <= k < |flags| && flags[k]
  }

  /** `init`: with nothing selected, the first option becomes selected; otherwise nothing changes. */
  function DefaultSelection(flags: seq<bool>): (r: seq<bool>)
    requires |flags| >= 1
    ensures |r| == |flags| && AnySelected(r)
    ensures AnySelected(flags) ==> r == flags
    ensures !AnySelected(flags) ==> r[0] && forall k :: 1 <= k < |r| ==> !r[k]
  {
    if AnySelected(flags) then flags
    else
      var r := flags[0 := true];
      assert r[0];
      r
  }

  /** The entries of `xs` whose flag is set, in document order (`find(":selected")`). */
  function Picked(xs: seq<string>, flags: seq<bool>): (r: seq<string>)
    requires |xs| == |flags|
    ensures |r| <= |xs|
    ensures forall x :: x in r <==> exists k :: 0 <= k < |xs| && flags[k] && xs[k] == x
    ensures |r| == 0 <==> !AnySelected(flags)
    decreases |xs|
  {
    if |xs| == 0 then []
    else
      var rest := Picked(xs[1..], flags[1..]);
      assert forall k :: 1 <= k < |xs| ==> xs[k] == xs[1..][k - 1] && flags[k] == flags[1..][k - 1];
      assert forall k :: 0 <= k < |xs| - 1 ==> xs[1..][k] == xs[k + 1] && flags[1..][k] == flags[k + 1];
      if flags[0] then [xs[0]] + rest else rest
  }

  /** Option `k` is the first selected one. */
  predicate FirstSelectedAt(selected: seq<bool>, k: nat) {
    k < |selected| && selected[k] && forall j :: 0 <= j < k ==> !selected[j]
  }

  /** The first entry `find(":selected")` gives is that of the first selected option. */
  lemma {:induction false} PickedFirst(xs: seq<string>, flags: seq<bool>, k: nat)
    requires |xs| == |flags| && FirstSelectedAt(flags, k)
    ensures |Picked(xs, flags)| >= 1 && Picked(xs, flags)[0] == xs[k]
    decreases k
  {
    if k > 0 {
      assert flags[1..][k - 1] == flags[k];
      assert forall j :: 0 <= j < k - 1 ==> flags[1..][j] == flags[j + 1];
      PickedFirst(xs[1..], flags[1..], k - 1);
    }
  }

  /**
    The value set `update` compares against: `val()` of a multiple select is
    the values of its selected options; of a single select, the value of the
    first selected option (none when nothing is selected).
   */
  function CurrentValues(values: seq<string>, selected: seq<bool>, multiple: bool): (v: seq<string>)
    requires |values| == |selected|
    ensures multiple ==> forall x :: x in v <==> exists k :: 0 <= k < |values| && selected[k] && values[k] == x
    ensures !multiple ==> |v| <= 1
    ensures !multiple ==> forall x :: x in v <==> exists k: nat :: FirstSelectedAt(selected, k) && values[k] == x
  {
    var all := Picked(values, selected);
    if multiple then all
    else if |all| == 0 then
      assert forall k: nat :: !FirstSelectedAt(selected, k);
      []
    else
      var k0 := FirstSelected(selected);
      PickedFirst(values, selected, k0);
      assert forall k: nat :: FirstSelectedAt(selected, k) ==> k == k0;
      [all[0]]
  }

  /** The position of the first selected option. */
  function FirstSelected(selected: seq<bool>): (k: nat)
    requires AnySelected(selected)
    ensures FirstSelectedAt(selected, k)
    decreases |selected|
  {
    if selected[0] then 0
    else
      assert AnySelected(selected[1..]) by {
        var i :| 0 <= i < |selected| && selected[i];
        assert selected[1..][i - 1] == selected[i];
      }
      1 + FirstSelected(selected[1..])
  }

  /**
    With distinct option values, `update` marks exactly the selected options
    of a multiple select, and the first selected option of a single select.
   */
  lemma MarksFollowSelection(values: seq<string>, selected: seq<bool>, k: nat)
    requires |values| == |selected| && k < |values|
    requires forall i, j :: 0 <= i < j < |values| ==> values[i] != values[j]
    ensures values[k] in CurrentValues(values, selected, true) <==> selected[k]
    ensures values[k] in CurrentValues(values, selected, false) <==> FirstSelectedAt(selected, k)
  {
    if values[k] in CurrentValues(values, selected, false) {
      var i: nat :| FirstSelectedAt(selected, i) && values[i] == values[k];
      assert i == k;
    }
  }

  /** The layout `init` reads from the options, when the dialog is laid out in a grid. */
  function LayoutOf(o: Config): (r: Option<Layout>)
    requires o.columns == Undefined || (o.columns.Num? && o.columns.n >= 1)
    requires o.rows == Undefined || (o.rows.Num? && o.rows.n >= 1)
    ensures r.Some? ==> (r.value.Columns? ==> r.value.cols >= 1) && (r.value.Rows? ==> r.value.rows >= 1)
    ensures r.None? <==> o.columns == Undefined && o.rows == Undefined
  {
    if Defined(o.columns) then Some(Columns(o.columns.n))
    else if Defined(o.rows) then Some(Rows(o.rows.n))
    else None
  }

  class SelectBox {
    // The underlying select box.
    var values: seq<string>
    var texts: seq<string>
    var selected: seq<bool>
    const multiple: bool

    // The replacement built by `init`.
    var marks: seq<bool>
    var shown: string
    var items: seq<nat>
    var options: Config

    predicate Valid()
      reads this
    {
      |values| == |texts| == |selected| == |marks|
    }

    /** A select box with its options, before `gentleSelect` is applied to it. */
    constructor (values: seq<string>, texts: seq<string>, selected: seq<bool>, multiple: bool)
      requires |values| == |texts| == |selected|
      ensures Valid()
      ensures this.values == values && this.texts == texts && this.selected == selected
      ensures this.multiple == multiple && items == [] && shown == ""
    {
      this.values := values;
      this.texts := texts;
      this.selected := selected;
      this.multiple := multiple;
      marks := seq(|values|, _ => false);
      shown := "";
      items := [];
      options := Defaults;
    }

    function SelectedTexts(): seq<string>
      reads this
      requires Valid()
    {
      Picked(texts, selected)
    }

    /**
      `init`: check the options; select the first option if none is;
      build the label and mark the selected items; then, for a grid, pad
      the list to `rows * cols` items and re-thread it column by column.
     */
    method Init(o: Config) returns (err: Option<ConfigError>)
      requires Valid() && |values| >= 1
      requires o.columns == Undefined || (o.columns.Num? && o.columns.n >= 1)
      requires o.rows == Undefined || (o.rows.Num? && o.rows.n >= 1)
      modifies this
      ensures err == CheckOptions(o)
      ensures err.Some? ==> unchanged(this)
      ensures err.None? ==>
                Valid() && values == old(values) && texts == old(texts) &&
                selected == DefaultSelection(old(selected)) && marks == selected &&
                shown == SelectedAsText(SelectedTexts(), o.prompt, o.maxDisplay) && options == o
      ensures err.None? && LayoutOf(o).None? ==> items == Range(0, |values|)
      ensures err.None? && LayoutOf(o).Some? ==>
                var g := GridSize(|values|, LayoutOf(o).value);
                items == ColumnMajor(g.0, g.1)
    {
      err := CheckOptions(o);
      if err.Some? {
        return;
      }
      selected := DefaultSelection(selected);
      shown := GetSelectedAsText(Picked(texts, selected), o.prompt, o.maxDisplay);
      options := o;
      marks := selected;
      var n := |values|;
      items := Range(0, n);
      var layout := LayoutOf(o);
      if layout.Some? {
        var g := GridSize(n, layout.value);
        var rows, cols := g.0, g.1;
        Pad(rows * cols);
        Reorder(rows, cols);
      }
    }

    /** The padding loop: dummy items bring the list up to `total` items. */
    method Pad(total: nat)
      requires |items| <= total && items == Range(0, |items|)
      modifies this
      ensures items == Range(0, total)
      ensures values == old(values) && texts == old(texts) && selected == old(selected)
      ensures marks == old(marks) && shown == old(shown) && options == old(options)
    {
      var elemCount := |items|;
      for i := 0 to total - elemCount
        invariant items == Range(0, elemCount + i)
        invariant values == old(values) && texts == old(texts) && selected == old(selected)
        invariant marks == old(marks) && shown == old(shown) && options == old(options)
      {
        items := items + [elemCount + i];
      }
    }

    /** `$(item).insertAfter(target)`. */
    method InsertAfter(item: nat, target: nat)
      requires item in items && target in items && item != target
      modifies this
      ensures items == MoveAfter(old(items), IndexOf(old(items), item), IndexOf(old(items), target))
      ensures values == old(values) && texts == old(texts) && selected == old(selected)
      ensures marks == old(marks) && shown == old(shown) && options == old(options)
    {
      items := MoveAfter(items, IndexOf(items, item), IndexOf(items, target));
    }

    /**
      The re-threading loop: the first `rows` items start one chain per row,
      and every later item is moved after the last item of its row's chain.
     */
    method Reorder(rows: nat, cols: nat)
      requires items == Range(0, rows * cols)
      modifies this
      ensures items == ColumnMajor(rows, cols)
      ensures values == old(values) && texts == old(texts) && selected == old(selected)
      ensures marks == old(marks) && shown == old(shown) && options == old(options)
    {
      var n := rows * cols;
      if n == 0 {
        return;
      }
      var all := items;
      var ptr: seq<nat> := [];
      var idx := 0;
      ThreadedStart(rows, n);
      while idx < |all|
        invariant 0 <= idx <= n == |all| && all == Range(0, n) && rows >= 1 && cols >= 1
        invariant Threaded(items, ptr, idx, rows, n)
        invariant values == old(values) && texts == old(texts) && selected == old(selected)
        invariant marks == old(marks) && shown == old(shown) && options == old(options)
      {
        ptr := Visit(all[idx], ptr, rows, n);
        idx := idx + 1;
      }
      ThreadedDone(items, ptr, rows, cols);
    }

    /**
      One visit of the re-threading loop: the first `rows` items start the
      chains; a later item goes after the end of its row's chain and becomes
      its new end.
     */
    method Visit(node: nat, ptr: seq<nat>, rows: nat, n: nat) returns (ptr': seq<nat>)
      requires node < n && Threaded(items, ptr, node, rows, n)
      modifies this
      ensures Threaded(items, ptr', node + 1, rows, n)
      ensures values == old(values) && texts == old(texts) && selected == old(selected)
      ensures marks == old(marks) && shown == old(shown) && options == old(options)
    {
      if node < rows {
        StartStep(items, ptr, node, rows, n);
        ptr' := ptr + [node];
      } else {
        var p := node % rows;
        MoveStepAt(items, ptr, node, rows, n);
        InsertAfter(node, ptr[p]);
        ptr' := ptr[p := node];
      }
    }

    /** `update`: mark every item whose value is in the select's current value set, and rebuild the label. */
    method Update()
      requires Valid()
      modifies this
      ensures Valid()
      ensures forall k :: 0 <= k < |marks| ==> (marks[k] <==> values[k] in CurrentValues(values, selected, multiple))
      ensures shown == SelectedAsText(SelectedTexts(), options.prompt, options.maxDisplay)
      ensures values == old(values) && texts == old(texts) && selected == old(selected)
      ensures items == old(items) && options == old(options)
    {
      var v := CurrentValues(values, selected, multiple);
      var n := |values|;
      for k := 0 to n
        invariant values == old(values) && |values| == n
        invariant Valid() && |marks| == n
        invariant forall i :: 0 <= i < k ==> (marks[i] <==> values[i] in v)
        invariant values == old(values) && texts == old(texts) && selected == old(selected)
        invariant items == old(items) && options == old(options)
      {
        marks := marks[k := values[k] in v];
      }
      shown := GetSelectedAsText(Picked(texts, selected), options.prompt, options.maxDisplay);
    }
  }
}
