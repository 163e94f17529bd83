// The selection buttons of `render_selection_buttons` (app.py:14-47): the
// ids shown as a grid of buttons, and the list of selected ids that a click
// toggles.
module Buttons {
  import opened Frames

  /** No id occurs twice. */
  predicate NoDup(s: seq<string>) {
    forall i, j :: 0 <= i < j < |s| ==> s[i] != s[j]
  }

  /** `list.remove(x)`: drops the first occurrence of `x`. */
  function RemoveFirst(s: seq<string>, x: string): (r: seq<string>)
    requires x in s
    ensures |r| == |s| - 1
    decreases |s|
  {
    if s[0] == x then s[1..] else [s[0]] + RemoveFirst(s[1..], x)
  }

  /** A click on the button of `x`: deselect it when selected, otherwise
      select it by appending it. */
  function Toggled(s: seq<string>, x: string): (r: seq<string>)
    ensures |r| == if x in s then |s| - 1 else |s| + 1
    ensures x !in s ==> r[|s|] == x
  {
    if x in s then RemoveFirst(s, x) else s + [x]
  }

  /** `remove` takes out exactly the first occurrence and keeps the rest in
      order. */
  lemma {:induction false} RemoveFirstAt(s: seq<string>, x: string) returns (i: nat)
    requires x in s
    ensures i < |s| && s[i] == x && x !in s[..i]
    ensures RemoveFirst(s, x) == s[..i] + s[i + 1..]
    decreases |s|
  {
    if s[0] == x {
      i := 0;
    } else {
      var j := RemoveFirstAt(s[1..], x);
      i := j + 1;
      assert s[..i] == [s[0]] + s[1..][..j];
      assert s[i + 1..] == s[1..][j + 1..];
    }
  }

  /** On a list without duplicates, a click flips the membership of the
      clicked id, leaves every other id's membership alone, and keeps the
      list free of duplicates. */
  lemma ToggleMembership(s: seq<string>, x: string, y: string)
    requires NoDup(s)
    ensures y in Toggled(s, x) <==> (if y == x then x !in s else y in s)
    ensures NoDup(Toggled(s, x))
  {
    if x in s {
      var i := RemoveFirstAt(s, x);
      assert s == s[..i] + [x] + s[i + 1..];
      if y == x {
        assert x !in s[i + 1..];
      }
    }
  }

  /** A click never reorders the other ids. */
  lemma ToggleKeepsOthers(s: seq<string>, x: string)
    ensures Where(Toggled(s, x), (y: string) => y != x) == Where(s, (y: string) => y != x)
  {
    var p := (y: string) => y != x;
    if x in s {
      var i := RemoveFirstAt(s, x);
      var before, after := s[..i], s[i + 1..];
      assert s == (before + [x]) + after;
      assert Where(before + [x], p) == Where(before, p);
      WhereConcat(before + [x], after, p);
      WhereConcat(before, after, p);
    } else {
      assert Where(s + [x], p) == Where(s, p);
    }
  }

  /** Clicking an unselected id twice leaves the list as it was. */
  lemma ToggleTwiceAbsent(s: seq<string>, x: string)
    requires x !in s
    ensures Toggled(Toggled(s, x), x) == s
  {
    var i := RemoveFirstAt(s + [x], x);
  }

  /** Clicking a selected id twice moves it to the end of the list. */
  lemma ToggleTwicePresent(s: seq<string>, x: string)
    requires NoDup(s) && x in s
    ensures Toggled(Toggled(s, x), x) == Where(s, (y: string) => y != x) + [x]
  {
    ToggleMembership(s, x, x);
    ToggleKeepsOthers(s, x);
    var t := Toggled(s, x);
    forall y | y in t ensures y != x {
    }
    WhereAll(t, (y: string) => y != x);
  }

  /** `st.session_state[session_key]`: the ids selected so far. */
  class SelectionList {
    var items: seq<string>

    predicate Valid()
      reads this
    {
      NoDup(items)
    }

    /** The list a session starts with. */
    constructor ()
      ensures items == [] && Valid()
    {
      items := [];
    }

    /** `item_id in st.session_state[session_key]`. */
    function IsSelected(id: string): bool
      reads this
    {
      id in items
    }

    /** The click handler: `remove` when selected, else `append`. */
    method Toggle(id: string)
      requires Valid()
      modifies this
      ensures Valid()
      ensures items == Toggled(old(items), id)
    {
      ToggleMembership(items, id, id);
      var isSelected := IsSelected(id);
      if isSelected {
        items := RemoveFirst(items, id);
      } else {
        items := items + [id];
      }
    }
  }

  // ---------------------------------------------------------------------
  // The button grid

  /** Python's `math.ceil(a / b)` on exact rationals. */
  function CeilDiv(a: int, b: int): (r: int)
    requires b != 0
    ensures b > 0 ==> (r - 1) * b < a <= r * b
    ensures b < 0 ==> r * b <= a < (r - 1) * b
  {
    if b > 0 then
      var q := (-a) / b;
      assert -a == q * b + (-a) % b;
      -q
    else
      var q := a / (-b);
      assert a == q * (-b) + a % (-b);
      -q
  }

  /** The items of one row of buttons: indices `start` up to `end`. */
  datatype Span = Span(start: int, end: int)

  /** The outcome of laying out the buttons: `ZeroDivision` when the
      division by `buttons_per_row` raises. */
  datatype Grid = ZeroDivision | Rows(spans: seq<Span>)

  /** The rows cover the items `0..n` left to right, each row holding
      between 1 and `p` items, and every row but the last exactly `p`. */
  predicate Tiling(rows: seq<Span>, n: nat, p: nat) {
    (rows == [] <==> n == 0)
    && (rows != [] ==> rows[0].start == 0 && rows[|rows| - 1].end == n)
    && (forall k :: 0 <= k < |rows| ==> 0 < rows[k].end - rows[k].start <= p)
    && (forall k :: 0 <= k < |rows| - 1 ==> rows[k].end == rows[k + 1].start)
    && (forall k :: 0 <= k < |rows| - 1 ==> rows[k].end - rows[k].start == p)
  }

  /** The row loop of `render_selection_buttons`: `ceil(n / per_row)` rows,
      row `r` holding items `r * per_row` up to `min((r + 1) * per_row, n)`. */
  method ButtonRows(n: nat, perRow: int) returns (g: Grid)
    ensures g == ZeroDivision <==> perRow == 0
    ensures perRow < 0 ==> g == Rows([])
    ensures perRow > 0 ==> g.Rows? && Tiling(g.spans, n, perRow) && |g.spans| == CeilDiv(n, perRow)
  {
    if perRow == 0 {
      return ZeroDivision;
    }
    var nRows := CeilDiv(n, perRow);
    var spans: seq<Span> := [];
    var r := 0;
    while r < nRows
      invariant perRow < 0 ==> r == 0 && spans == []
      invariant perRow > 0 ==> 0 <= r <= nRows && |spans| == r
      invariant forall k :: 0 <= k < |spans| ==> spans[k] == Span(k * perRow, Min((k + 1) * perRow, n))
    {
      var startIdx := r * perRow;
      var endIdx := Min((r + 1) * perRow, n);
      spans := spans + [Span(startIdx, endIdx)];
      r := r + 1;
    }
    if perRow > 0 {
      RowsTile(n, perRow, spans);
    }
    g := Rows(spans);
  }

  function Min(a: int, b: int): int {
    if a <= b then a else b
  }

  /** The spans the row loop builds tile the items. */
  lemma RowsTile(n: nat, p: nat, spans: seq<Span>)
    requires p > 0 && |spans| == CeilDiv(n, p)
    requires forall k :: 0 <= k < |spans| ==> spans[k] == Span(k * p, Min((k + 1) * p, n))
    ensures Tiling(spans, n, p)
  {
    var m := |spans|;
    forall k | 0 <= k < m
      ensures 0 < spans[k].end - spans[k].start <= p
      ensures k < m - 1 ==> spans[k].end - spans[k].start == p
    {
      assert k <= m - 1;
      MulMono(k, m - 1, p);
      if k < m - 1 {
        MulMono(k + 1, m - 1, p);
      }
    }
    if m > 0 {
      MulMono(m - 1, m - 1, p);
    }
  }

  lemma MulMono(a: int, b: int, p: int)
    requires a <= b && p > 0
    ensures a * p <= b * p
  {
  }

  /** Every item gets exactly one button: its row is the only row that
      holds it. */
  lemma TilingCovers(rows: seq<Span>, n: nat, p: nat, i: int) returns (k: nat)
    requires Tiling(rows, n, p) && 0 <= i < n
    ensures k < |rows| && rows[k].start <= i < rows[k].end
    ensures forall l :: 0 <= l < |rows| && rows[l].start <= i < rows[l].end ==> l == k
  {
    k := 0;
    while rows[k].end <= i
      invariant k < |rows| && rows[k].start <= i
      invariant forall l :: 0 <= l < k ==> rows[l].end <= i
      decreases |rows| - k
    {
      k := k + 1;
    }
    StartsIncrease(rows, n, p);
  }

  /** Rows start after the rows before them end. */
  lemma StartsIncrease(rows: seq<Span>, n: nat, p: nat)
    requires Tiling(rows, n, p)
    ensures forall k, l :: 0 <= k < l < |rows| ==> rows[k].end <= rows[l].start
  {
    forall k, l | 0 <= k < l < |rows| ensures rows[k].end <= rows[l].start {
      var j := k + 1;
      while j < l
        invariant k < j <= l && rows[k].end <= rows[j].start
      {
        j := j + 1;
      }
    }
  }
}
