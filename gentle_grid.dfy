/**
  The column layout of a gentleSelect dialog: how many rows and columns
  the items fill, and the order the re-threading loop of `init` leaves
  the list items in. Items are named by their position before layout:
  the options' items first, then the padding items.
 */
module GentleGrid {

  /** `Math.ceil(n / d)` for whole numbers. */
  function CeilDiv(n: nat, d: nat): (q: nat)
    requires d >= 1
    ensures q * d >= n
    ensures q == 0 || (q - 1) * d < n
  {
    (n + d - 1) / d
  }

  /** How the dialog is laid out: a fixed number of columns or of rows. */
  datatype Layout = Columns(cols: nat) | Rows(rows: nat)

  /** The `(rows, cols)` of the grid for `n` items: the count not given is the ceiling of `n` over the one given. */
  function GridSize(n: nat, layout: Layout): (g: (nat, nat))
    requires layout.Columns? ==> layout.cols >= 1
    requires layout.Rows? ==> layout.rows >= 1
    ensures layout.Columns? ==> g.1 == layout.cols
    ensures layout.Rows? ==> g.0 == layout.rows
    ensures g.0 * g.1 >= n
    ensures n > 0 ==> g.0 >= 1 && g.1 >= 1
    ensures layout.Columns? ==> (g.0 - 1) * g.1 < n
    ensures layout.Rows? ==> (g.1 - 1) * g.0 < n
  {
    match layout
    case Columns(c) => (CeilDiv(n, c), c)
    case Rows(r) => (r, CeilDiv(n, r))
  }

  function Range(a: nat, b: nat): (r: seq<nat>)
    requires a <= b
    ensures |r| == b - a && forall i :: 0 <= i < |r| ==> r[i] == a + i
  {
    seq(b - a, i requires 0 <= i < b - a => a + i)
  }

  /** Column-major order: position `k` holds item `k div cols + (k mod cols) * rows`. */
  function ColumnMajor(rows: nat, cols: nat): (r: seq<nat>)
    ensures |r| == rows * cols
  {
    if cols == 0 then
      assert rows * cols == 0;
      []
    else seq(rows * cols, k requires 0 <= k < rows * cols => Item(k, rows, cols))
  }

  /** The item column-major order puts at position `k`. */
  function Item(k: nat, rows: nat, cols: nat): nat
    requires cols >= 1
  {
    var i: int := k / cols + (k % cols) * rows;
    MulNonNegative(k % cols, rows);
    i
  }

  lemma MulNonNegative(a: nat, b: nat)
    ensures a * b >= 0
  {
  }

  /** Quotient and remainder are unique. */
  lemma DivMod(n: int, d: int, q: int, r: int)
    requires d >= 1 && 0 <= r < d && n == q * d + r
    ensures n / d == q && n % d == r
  {
    var q', r' := n / d, n % d;
    assert q * d - q' * d == r' - r;
    assert (q - q') * d == q * d - q' * d;
    ZeroMultiple(q - q', d, r' - r);
  }

  /** A multiple of `d` strictly between `-d` and `d` is zero. */
  lemma ZeroMultiple(x: int, d: int, e: int)
    requires d >= 1 && x * d == e && -d < e < d
    ensures x == 0
  {
    if x >= 1 {
      MulLe(1, x, d);
    }
  }

  lemma MulLe(a: int, b: int, c: nat)
    requires a <= b
    ensures a * c <= b * c
  {
    assert b * c - a * c == (b - a) * c;
  }

  /** A position of the grid lies in one of its rows. */
  lemma RowOf(k: nat, rows: nat, cols: nat)
    requires k < rows * cols
    ensures cols >= 1 && k / cols < rows
  {
    assert cols != 0;
    var p := k / cols;
    if p >= rows {
      MulLe(rows, p, cols);
    }
  }

  /** Position `k` of column-major order holds an item of the grid. */
  lemma ColumnMajorAt(rows: nat, cols: nat, k: nat)
    requires k < rows * cols
    ensures var p, j := k / cols, k % cols;
      p < rows && j < cols && ColumnMajor(rows, cols)[k] == p + j * rows &&
      p + j * rows < rows * cols
  {
    RowOf(k, rows, cols);
    var p, j := k / cols, k % cols;
    MulLe(j, cols - 1, rows);
    assert (cols - 1) * rows == rows * cols - rows;
  }

  /** Item `m` of the grid sits at position `(m mod rows) * cols + m div rows`. */
  lemma PositionOf(rows: nat, cols: nat, m: nat)
    requires m < rows * cols
    ensures rows >= 1 && (m % rows) * cols + m / rows < rows * cols
    ensures ColumnMajor(rows, cols)[(m % rows) * cols + m / rows] == m
  {
    RowOf(m, cols, rows);
    assert cols * rows == rows * cols;
    var p, j := m % rows, m / rows;
    var k := p * cols + j;
    MulLe(p, rows - 1, cols);
    assert (rows - 1) * cols == rows * cols - cols;
    DivMod(k, cols, p, j);
    ColumnMajorAt(rows, cols, k);
  }

  /**
    Column-major order is a permutation of the grid's items: every entry is
    an item, no two positions hold the same item, and item `m` sits in row
    `m mod rows`, column `m div rows`.
   */
  lemma ColumnMajorInRange(rows: nat, cols: nat)
    ensures forall k :: 0 <= k < rows * cols ==> ColumnMajor(rows, cols)[k] < rows * cols
  {
    forall k | 0 <= k < rows * cols
      ensures ColumnMajor(rows, cols)[k] < rows * cols
    {
      ColumnMajorAt(rows, cols, k);
    }
  }

  lemma ColumnMajorDistinct(rows: nat, cols: nat)
    ensures Distinct(ColumnMajor(rows, cols))
  {
    var cm := ColumnMajor(rows, cols);
    forall k1, k2 | 0 <= k1 < k2 < |cm|
      ensures cm[k1] != cm[k2]
    {
      if cm[k1] == cm[k2] {
        ColumnMajorInjective(rows, cols, k1, k2);
      }
    }
  }

  lemma ColumnMajorInjective(rows: nat, cols: nat, k1: nat, k2: nat)
    requires k1 < rows * cols && k2 < rows * cols
    requires ColumnMajor(rows, cols)[k1] == ColumnMajor(rows, cols)[k2]
    ensures k1 == k2
  {
    PositionOfItem(rows, cols, k1);
    PositionOfItem(rows, cols, k2);
  }

  /** The position of the item at position `k` is `k`: reading the grid back inverts column-major order. */
  lemma PositionOfItem(rows: nat, cols: nat, k: nat)
    requires k < rows * cols
    ensures rows >= 1
    ensures var m := ColumnMajor(rows, cols)[k]; (m % rows) * cols + m / rows == k
  {
    ColumnMajorAt(rows, cols, k);
    var p, j := k / cols, k % cols;
    Recombine(k, cols);
    ItemPosition(p, j, rows, cols, k);
  }

  lemma ItemPosition(p: nat, j: nat, rows: nat, cols: nat, k: nat)
    requires p < rows && k == p * cols + j
    ensures var m := p + j * rows; (m % rows) * cols + m / rows == k
  {
    DivMod(p + j * rows, rows, j, p);
  }

  /** A number is its quotient times the divisor plus its remainder. */
  lemma Recombine(k: nat, d: nat)
    requires d >= 1
    ensures k == (k / d) * d + k % d
  {
  }

  lemma ColumnMajorCovers(rows: nat, cols: nat)
    ensures forall m :: 0 <= m < rows * cols ==>
              (m % rows) * cols + m / rows < rows * cols &&
              ColumnMajor(rows, cols)[(m % rows) * cols + m / rows] == m
  {
    forall m | 0 <= m < rows * cols
      ensures (m % rows) * cols + m / rows < rows * cols
      ensures ColumnMajor(rows, cols)[(m % rows) * cols + m / rows] == m
    {
      PositionOf(rows, cols, m);
    }
  }

  // The state of the re-threading loop: one chain of items per row.

  function Flatten(cs: seq<seq<nat>>): seq<nat>
    decreases |cs|
  {
    if |cs| == 0 then [] else cs[0] + Flatten(cs[1..])
  }

  lemma {:induction false} FlattenAppend(a: seq<seq<nat>>, b: seq<seq<nat>>)
    ensures Flatten(a + b) == Flatten(a) + Flatten(b)
    decreases |a|
  {
    if |a| > 0 {
      assert (a + b)[1..] == a[1..] + b;
      FlattenAppend(a[1..], b);
    } else {
      assert a + b == b;
    }
  }

  /** The rows before `p`, row `p`, and the rows after it. */
  lemma {:induction false} FlattenAt(cs: seq<seq<nat>>, p: nat)
    requires p < |cs|
    ensures Flatten(cs) == Flatten(cs[..p]) + cs[p] + Flatten(cs[p + 1..])
    decreases p
  {
    if p == 0 {
      assert Flatten(cs[..0]) == [];
    } else {
      var t := cs[1..];
      FlattenAt(t, p - 1);
      assert t[..p - 1] == cs[..p][1..];
      assert t[p - 1] == cs[p] && t[p..] == cs[p + 1..];
      assert Flatten(cs[..p]) == cs[0] + Flatten(t[..p - 1]);
    }
  }

  /** Rows of equal length `len` flatten row after row. */
  lemma {:induction false} FlattenUniform(cs: seq<seq<nat>>, len: nat)
    requires len >= 1 && forall p :: 0 <= p < |cs| ==> |cs[p]| == len
    ensures |Flatten(cs)| == |cs| * len
    decreases |cs|
  {
    if |cs| > 0 {
      FlattenUniform(cs[1..], len);
      assert (|cs| - 1) * len + len == |cs| * len;
    }
  }

  /** Entry `j` of row `p` sits at position `p * len + j` of the flattened rows. */
  lemma {:induction false} FlattenUniformAt(cs: seq<seq<nat>>, len: nat, p: nat, j: nat)
    requires forall q :: 0 <= q < |cs| ==> |cs[q]| == len
    requires p < |cs| && j < len
    ensures p * len + j < |Flatten(cs)| && Flatten(cs)[p * len + j] == cs[p][j]
    decreases p
  {
    FlattenUniform(cs, len);
    MulLe(p, |cs| - 1, len);
    assert (|cs| - 1) * len + len == |cs| * len;
    if p > 0 {
      FlattenUniformAt(cs[1..], len, p - 1, j);
      assert (p - 1) * len + len == p * len;
    }
  }

  /** The chain of row `p` with `len` items: `p`, `p + rows`, `p + 2 * rows`, ... */
  function Chain(p: nat, len: nat, rows: nat): (c: seq<nat>)
    ensures |c| == len
  {
    seq(len, j requires 0 <= j < len => p + j * rows)
  }

  /** How many of the first `idx` items belong to row `p`. */
  function Len(p: nat, idx: nat, rows: nat): nat
    requires rows >= 1
  {
    idx / rows + (if p < idx % rows then 1 else 0)
  }

  function Chains(idx: nat, rows: nat): (cs: seq<seq<nat>>)
    requires rows >= 1
    ensures |cs| == rows
  {
    seq(rows, p requires 0 <= p < rows => Chain(p, Len(p, idx, rows), rows))
  }

  /** Visiting item `idx` extends exactly the chain of row `idx mod rows`. */
  lemma LenStep(p: nat, idx: nat, rows: nat)
    requires rows >= 1 && p < rows
    ensures Len(p, idx + 1, rows) == Len(p, idx, rows) + (if p == idx % rows then 1 else 0)
  {
    var q, r := idx / rows, idx % rows;
    if r + 1 < rows {
      DivMod(idx + 1, rows, q, r + 1);
    } else {
      DivMod(idx + 1, rows, q + 1, 0);
    }
  }

  lemma ChainsStep(idx: nat, rows: nat)
    requires rows >= 1
    ensures var p := idx % rows;
      var cs := Chains(idx, rows);
      Chains(idx + 1, rows) == cs[p := cs[p] + [idx]]
  {
    var p := idx % rows;
    var cs := Chains(idx, rows);
    var cs' := Chains(idx + 1, rows);
    forall p' | 0 <= p' < rows
      ensures cs'[p'] == cs[p := cs[p] + [idx]][p']
    {
      LenStep(p', idx, rows);
      if p' == p {
        var q := idx / rows;
        DivMod(idx, rows, q, p);
        assert Len(p, idx, rows) == q;
        assert cs'[p] == cs[p] + [idx];
      }
    }
  }

  /** Once every item is visited, row `p` holds `cols` items. */
  lemma ChainsDone(rows: nat, cols: nat)
    requires rows >= 1 && cols >= 1
    ensures forall p :: 0 <= p < rows ==> Chains(rows * cols, rows)[p] == Chain(p, cols, rows)
  {
    DivMod(rows * cols, rows, cols, 0);
  }

  /** The finished chains, read row after row, are column-major order. */
  lemma {:induction false} FinalOrder(rows: nat, cols: nat)
    requires rows >= 1 && cols >= 1
    ensures Flatten(Chains(rows * cols, rows)) == ColumnMajor(rows, cols)
  {
    var cs := Chains(rows * cols, rows);
    ChainsDone(rows, cols);
    assert forall p :: 0 <= p < |cs| ==> |cs[p]| == cols;
    FlattenUniform(cs, cols);
    forall k | 0 <= k < rows * cols
      ensures Flatten(cs)[k] == ColumnMajor(rows, cols)[k]
    {
      FinalOrderAt(rows, cols, cs, k);
    }
  }

  lemma FinalOrderAt(rows: nat, cols: nat, cs: seq<seq<nat>>, k: nat)
    requires rows >= 1 && cols >= 1 && k < rows * cols
    requires |cs| == rows && forall p :: 0 <= p < rows ==> cs[p] == Chain(p, cols, rows)
    ensures k < |Flatten(cs)| && Flatten(cs)[k] == ColumnMajor(rows, cols)[k]
  {
    var p, j := k / cols, k % cols;
    RowOf(k, rows, cols);
    Recombine(k, cols);
    LenOfRows(cs, cols, rows);
    FlattenUniformAt(cs, cols, p, j);
    ColumnMajorAt(rows, cols, k);
    assert cs[p] == Chain(p, cols, rows);
  }

  lemma LenOfRows(cs: seq<seq<nat>>, cols: nat, rows: nat)
    requires |cs| == rows && forall p :: 0 <= p < rows ==> cs[p] == Chain(p, cols, rows)
    ensures forall p :: 0 <= p < |cs| ==> |cs[p]| == cols
  {
  }

  /** The last item of row `p`'s chain, which `ptr[p]` holds. */
  lemma ChainLast(idx: nat, rows: nat, p: nat)
    requires rows >= 1 && p < rows && rows <= idx && p == idx % rows
    ensures Len(p, idx, rows) >= 1
    ensures Chains(idx, rows)[p][Len(p, idx, rows) - 1] == idx - rows
  {
    var q := idx / rows;
    DivMod(idx, rows, q, p);
    assert q >= 1;
    assert Len(p, idx, rows) == q;
  }

  // `$(item).insertAfter(target)` on the list.

  /** Takes the item at position `i` out of the list and puts it back just after the item that was at position `j`. */
  function MoveAfter(s: seq<nat>, i: nat, j: nat): (r: seq<nat>)
    requires i < |s| && j < |s| && i != j
    ensures |r| == |s|
  {
    if j < i then s[..j + 1] + [s[i]] + s[j + 1..i] + s[i + 1..]
    else s[..i] + s[i + 1..j + 1] + [s[i]] + s[j + 1..]
  }

  /** Moving an item rearranges the list without adding or losing anything. */
  lemma MoveAfterPermutes(s: seq<nat>, i: nat, j: nat)
    requires i < |s| && j < |s| && i != j
    ensures multiset(MoveAfter(s, i, j)) == multiset(s)
  {
    if j < i {
      SwapPermutes(s[..j + 1], s[j + 1..i], [s[i]], s[i + 1..]);
      assert s == s[..j + 1] + s[j + 1..i] + [s[i]] + s[i + 1..];
    } else {
      SwapPermutes(s[..i], [s[i]], s[i + 1..j + 1], s[j + 1..]);
      assert s == s[..i] + [s[i]] + s[i + 1..j + 1] + s[j + 1..];
    }
  }

  /** Swapping two adjacent pieces of a list keeps its multiset. */
  lemma SwapPermutes(a: seq<nat>, b: seq<nat>, c: seq<nat>, d: seq<nat>)
    ensures multiset(a + c + b + d) == multiset(a + b + c + d)
  {
    calc {
      multiset(a + c + b + d);
      multiset(a) + multiset(c) + multiset(b) + multiset(d);
      multiset(a) + multiset(b) + multiset(c) + multiset(d);
      multiset(a + b + c + d);
    }
  }

  /** Moving an item elsewhere and back after its old neighbour restores the list. */
  lemma MoveAfterBack(s: seq<nat>, i: nat)
    requires 0 < i < |s|
    ensures MoveAfter(s, i, i - 1) == s
  {
    assert s == s[..i] + [s[i]] + s[i + 1..];
  }

  lemma {:induction false} FlattenEmpty(cs: seq<seq<nat>>)
    requires forall q :: 0 <= q < |cs| ==> cs[q] == []
    ensures Flatten(cs) == []
    decreases |cs|
  {
    if |cs| > 0 {
      FlattenEmpty(cs[1..]);
    }
  }

  /** Extending the last non-empty chain appends to the flattened list. */
  lemma {:induction false} AppendStep(cs: seq<seq<nat>>, p: nat, x: nat)
    requires p < |cs| && forall q :: p < q < |cs| ==> cs[q] == []
    ensures Flatten(cs[p := cs[p] + [x]]) == Flatten(cs) + [x]
  {
    var cs' := cs[p := cs[p] + [x]];
    FlattenAt(cs, p);
    FlattenAt(cs', p);
    assert cs'[..p] == cs[..p] && cs'[p + 1..] == cs[p + 1..];
    FlattenEmpty(cs[p + 1..]);
  }

  /** Before the first `rows` items are visited, the rows from `idx` on have no chain yet. */
  lemma EarlyChains(idx: nat, rows: nat)
    requires idx < rows
    ensures idx % rows == idx && forall q :: idx <= q < rows ==> Chains(idx, rows)[q] == []
  {
    DivMod(idx, rows, 0, idx);
  }

  /** Moving the item after `b` back to just after `u`'s last item. */
  lemma MoveAfterSplit(u: seq<nat>, b: seq<nat>, x: nat, tail: seq<nat>)
    requires |u| >= 1
    ensures var s := u + b + [x] + tail;
      |u| - 1 < |u| + |b| < |s| && s[|u| - 1] == u[|u| - 1] && s[|u| + |b|] == x &&
      MoveAfter(s, |u| + |b|, |u| - 1) == u + [x] + b + tail
  {
    var s := u + b + [x] + tail;
    var i, j := |u| + |b|, |u| - 1;
    assert s[..j + 1] == u;
    assert s[j + 1..i] == b;
    assert s[i] == x;
    assert s[i + 1..] == tail;
  }

  /** The rows around row `p`, before and after row `p` grows by `x`. */
  lemma FlattenAround(cs: seq<seq<nat>>, p: nat, x: nat)
    requires p < |cs|
    ensures Flatten(cs) == Flatten(cs[..p]) + cs[p] + Flatten(cs[p + 1..])
    ensures Flatten(cs[p := cs[p] + [x]]) == Flatten(cs[..p]) + cs[p] + [x] + Flatten(cs[p + 1..])
  {
    var cs' := cs[p := cs[p] + [x]];
    FlattenAt(cs, p);
    FlattenAt(cs', p);
    assert cs'[..p] == cs[..p] && cs'[p + 1..] == cs[p + 1..];
  }

  /**
    One step of the re-threading loop: with the chains flattened before the
    unvisited items, moving the first unvisited item after the last item of
    its row's chain extends that chain.
   */
  lemma {:induction false} MoveStep(cs: seq<seq<nat>>, p: nat, x: nat, tail: seq<nat>)
    requires p < |cs| && |cs[p]| >= 1
    ensures var s := Flatten(cs) + [x] + tail;
      var j := |Flatten(cs[..p])| + |cs[p]| - 1;
      var i := |Flatten(cs)|;
      j < i < |s| && s[j] == cs[p][|cs[p]| - 1] && s[i] == x &&
      MoveAfter(s, i, j) == Flatten(cs[p := cs[p] + [x]]) + tail
  {
    var a, c, b := Flatten(cs[..p]), cs[p], Flatten(cs[p + 1..]);
    FlattenAround(cs, p, x);
    MoveAfterSplit(a + c, b, x, tail);
    assert (a + c)[|a| + |c| - 1] == c[|c| - 1];
  }

  /** The same step on a list of distinct items, finding both items by value as `insertAfter` does. */
  lemma {:induction false} MoveList(items: seq<nat>, cs: seq<seq<nat>>, p: nat, x: nat, tail: seq<nat>)
    requires p < |cs| && |cs[p]| >= 1
    requires items == Flatten(cs) + [x] + tail && Distinct(items)
    ensures x in items && cs[p][|cs[p]| - 1] in items && x != cs[p][|cs[p]| - 1]
    ensures MoveAfter(items, IndexOf(items, x), IndexOf(items, cs[p][|cs[p]| - 1])) == Flatten(cs[p := cs[p] + [x]]) + tail
  {
    MoveStep(cs, p, x, tail);
    var i := |Flatten(cs)|;
    var j := |Flatten(cs[..p])| + |cs[p]| - 1;
    IndexOfDistinct(items, i);
    IndexOfDistinct(items, j);
  }

  // Items are distinct, so each is found at one position.

  predicate Distinct(s: seq<nat>) {
    forall i, j :: 0 <= i < j < |s| ==> s[i] != s[j]
  }

  /** A list with one occurrence of each value has every multiplicity at most one. */
  lemma {:induction false} DistinctCounts(s: seq<nat>, x: nat)
    requires Distinct(s)
    ensures multiset(s)[x] <= 1
    decreases |s|
  {
    if |s| > 0 {
      assert s == [s[0]] + s[1..];
      DistinctCounts(s[1..], x);
      if s[0] == x {
        assert x !in s[1..];
        assert multiset(s[1..])[x] == 0;
      }
    }
  }

  /** A permutation of a list of distinct values is itself distinct. */
  lemma DistinctPermutation(s: seq<nat>, t: seq<nat>)
    requires Distinct(t) && multiset(s) == multiset(t)
    ensures Distinct(s)
  {
    forall i, j | 0 <= i < j < |s|
      ensures s[i] != s[j]
    {
      if s[i] == s[j] {
        var x := s[i];
        assert s == s[..i] + [x] + s[i + 1..j] + [x] + s[j + 1..];
        assert multiset(s)[x] >= 2;
        DistinctCounts(t, x);
      }
    }
  }

  lemma RangeDistinct(a: nat, b: nat)
    requires a <= b
    ensures Distinct(Range(a, b))
  {
  }

  /** `find`: the position of `x` in `s`. */
  function IndexOf(s: seq<nat>, x: nat): (i: nat)
    requires x in s
    ensures i < |s| && s[i] == x
  {
    if s[0] == x then 0 else 1 + IndexOf(s[1..], x)
  }

  lemma IndexOfDistinct(s: seq<nat>, i: nat)
    requires Distinct(s) && i < |s|
    ensures IndexOf(s, s[i]) == i
  {
  }

  // One visit of the re-threading loop, on the list and on the chain ends.

  /** The ends of the chains, as `ptr` holds them after visiting `idx` items. */
  predicate ChainEnds(ptr: seq<nat>, idx: nat, rows: nat)
    requires rows >= 1
  {
    |ptr| == (if idx < rows then idx else rows) &&
    forall p :: 0 <= p < |ptr| ==> Len(p, idx, rows) >= 1 && ptr[p] == Chains(idx, rows)[p][Len(p, idx, rows) - 1]
  }

  /** The state of the re-threading loop after visiting `idx` of the `n` items. */
  predicate Threaded(items: seq<nat>, ptr: seq<nat>, idx: nat, rows: nat, n: nat) {
    rows >= 1 && idx <= n &&
    items == Flatten(Chains(idx, rows)) + Range(idx, n) && Distinct(items) &&
    ChainEnds(ptr, idx, rows)
  }

  /** Before the loop: no chains, every item unvisited. */
  lemma ThreadedStart(rows: nat, n: nat)
    requires rows >= 1
    ensures Threaded(Range(0, n), [], 0, rows, n)
  {
    FlattenEmpty(Chains(0, rows));
    RangeDistinct(0, n);
  }

  /** Visiting one of the first `rows` items leaves the list alone and starts that row's chain. */
  lemma {:induction false} StartStep(items: seq<nat>, ptr: seq<nat>, idx: nat, rows: nat, n: nat)
    requires Threaded(items, ptr, idx, rows, n) && idx < rows && idx < n
    ensures Threaded(items, ptr + [idx], idx + 1, rows, n)
  {
    var cs := Chains(idx, rows);
    ChainsStep(idx, rows);
    EarlyChains(idx, rows);
    AppendStep(cs, idx, idx);
    assert Range(idx, n) == [idx] + Range(idx + 1, n);
    var ptr' := ptr + [idx];
    forall q | 0 <= q < |ptr'|
      ensures Len(q, idx + 1, rows) >= 1 && ptr'[q] == Chains(idx + 1, rows)[q][Len(q, idx + 1, rows) - 1]
    {
      LenStep(q, idx, rows);
    }
  }

  /**
    Visiting a later item moves it after the end of its row's chain, which
    extends that chain and makes the item the chain's new end.
   */
  lemma {:induction false} MoveStepAt(items: seq<nat>, ptr: seq<nat>, idx: nat, rows: nat, n: nat)
    requires Threaded(items, ptr, idx, rows, n) && rows <= idx < n
    ensures var p := idx % rows;
      p < |ptr| && idx in items && ptr[p] in items && idx != ptr[p] &&
      Threaded(MoveAfter(items, IndexOf(items, idx), IndexOf(items, ptr[p])), ptr[p := idx], idx + 1, rows, n)
  {
    var p := idx % rows;
    var cs := Chains(idx, rows);
    ChainLast(idx, rows, p);
    var last := cs[p][|cs[p]| - 1];
    assert ptr[p] == last;
    var tail := Range(idx + 1, n);
    assert Range(idx, n) == [idx] + tail;
    MoveList(items, cs, p, idx, tail);
    ChainsStep(idx, rows);
    EndsStep(ptr, idx, rows);
    var moved := MoveAfter(items, IndexOf(items, idx), IndexOf(items, last));
    MoveAfterPermutes(items, IndexOf(items, idx), IndexOf(items, last));
    DistinctPermutation(moved, items);
  }

  /** After the last visit the list is in column-major order. */
  lemma ThreadedDone(items: seq<nat>, ptr: seq<nat>, rows: nat, cols: nat)
    requires cols >= 1 && Threaded(items, ptr, rows * cols, rows, rows * cols)
    ensures items == ColumnMajor(rows, cols)
  {
    assert Range(rows * cols, rows * cols) == [];
    FinalOrder(rows, cols);
  }

  lemma EndsStep(ptr: seq<nat>, idx: nat, rows: nat)
    requires rows >= 1 && rows <= idx
    requires ChainEnds(ptr, idx, rows)
    ensures ChainEnds(ptr[idx % rows := idx], idx + 1, rows)
  {
    var p := idx % rows;
    var ptr' := ptr[p := idx];
    forall q | 0 <= q < |ptr'|
      ensures Len(q, idx + 1, rows) >= 1 && ptr'[q] == Chains(idx + 1, rows)[q][Len(q, idx + 1, rows) - 1]
    {
      LenStep(q, idx, rows);
      ChainsStep(idx, rows);
    }
  }
}
