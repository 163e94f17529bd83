// A pandas table is modelled as the sequence of its rows; the position of a
// row in the sequence is its index after `reset_index(drop=True)`. A boolean
// Series over the table is a `seq<bool>` of the same length.
module Frames {

  /** The rows of `s` for which `p` holds, in their original order. */
  function Where<T>(s: seq<T>, p: T -> bool): (r: seq<T>)
    ensures |r| <= |s|
    decreases |s|
  {
    if s == [] then []
    else Where(s[..|s| - 1], p) + (if p(s[|s| - 1]) then [s[|s| - 1]] else [])
  }

  /** A row is kept exactly when it is a row of `s` that satisfies `p`. */
  lemma {:induction false} WhereMember<T>(s: seq<T>, p: T -> bool, x: T)
    ensures x in Where(s, p) <==> x in s && p(x)
    decreases |s|
  {
    if s != [] {
      var n := |s| - 1;
      WhereMember(s[..n], p, x);
      assert s == s[..n] + [s[n]];
    }
  }

  /** Boolean indexing `df[mask]`: the rows whose mask entry is true, in
      their original order. */
  function Keep<T>(s: seq<T>, mask: seq<bool>): (r: seq<T>)
    requires |mask| == |s|
    ensures |r| <= |s|
    ensures forall k :: 0 <= k < |r| ==> r[k] in s
    decreases |s|
  {
    if s == [] then []
    else
      Keep(s[..|s| - 1], mask[..|s| - 1])
      + (if mask[|s| - 1] then [s[|s| - 1]] else [])
  }

  /** The indices at which `mask` is true, in increasing order. */
  function Positions(mask: seq<bool>): (r: seq<nat>)
    ensures forall k :: 0 <= k < |r| ==> r[k] < |mask| && mask[r[k]]
    ensures forall k, l :: 0 <= k < l < |r| ==> r[k] < r[l]
    ensures forall i :: 0 <= i < |mask| && mask[i] ==> i in r
    decreases |mask|
  {
    if mask == [] then []
    else
      var n := |mask| - 1;
      Positions(mask[..n]) + (if mask[n] then [n] else [])
  }

  /** `pd.concat(masks, axis=1).any(axis=1)`: true at a row when some mask
      is true there. */
  function AnyOf(masks: seq<seq<bool>>, n: nat): (r: seq<bool>)
    requires forall k :: 0 <= k < |masks| ==> |masks[k]| == n
    ensures |r| == n
  {
    seq(n, j requires 0 <= j < n => exists k :: 0 <= k < |masks| && masks[k][j])
  }

  /** `df[mask]` is a dense renumbering of a subsequence of `df`: its row `k`
      is row `Positions(mask)[k]` of `df`, and those positions increase. */
  lemma {:induction false} KeepAt<T>(s: seq<T>, mask: seq<bool>)
    requires |mask| == |s|
    ensures |Keep(s, mask)| == |Positions(mask)|
    ensures forall k :: 0 <= k < |Keep(s, mask)| ==> Keep(s, mask)[k] == s[Positions(mask)[k]]
    decreases |s|
  {
    if s != [] {
      var n := |s| - 1;
      KeepAt(s[..n], mask[..n]);
    }
  }

  /** Indexing with a mask computed row by row from `p` is filtering by `p`. */
  lemma {:induction false} KeepWhere<T>(s: seq<T>, mask: seq<bool>, p: T -> bool)
    requires |mask| == |s|
    requires forall i :: 0 <= i < |s| ==> mask[i] == p(s[i])
    ensures Keep(s, mask) == Where(s, p)
    decreases |s|
  {
    if s != [] {
      var n := |s| - 1;
      KeepWhere(s[..n], mask[..n], p);
    }
  }

  /** Filtering twice is filtering once by the conjunction. */
  lemma {:induction false} WhereWhere<T>(s: seq<T>, p: T -> bool, q: T -> bool, pq: T -> bool)
    requires forall x :: x in s ==> pq(x) == (p(x) && q(x))
    ensures Where(Where(s, p), q) == Where(s, pq)
    decreases |s|
  {
    if s != [] {
      var n := |s| - 1;
      WhereWhere(s[..n], p, q, pq);
      var w := Where(s[..n], p);
      if p(s[n]) {
        assert Where(s, p) == w + [s[n]];
        assert (w + [s[n]])[..|w|] == w;
      } else {
        assert Where(s, p) == w;
      }
    }
  }

  /** Filters that agree on every row of `s` select the same rows. */
  lemma {:induction false} WhereSame<T>(s: seq<T>, p: T -> bool, q: T -> bool)
    requires forall x :: x in s ==> p(x) == q(x)
    ensures Where(s, p) == Where(s, q)
    decreases |s|
  {
    if s != [] {
      WhereSame(s[..|s| - 1], p, q);
    }
  }

  /** A filter that holds on every row keeps the whole table. */
  lemma {:induction false} WhereAll<T>(s: seq<T>, p: T -> bool)
    requires forall i :: 0 <= i < |s| ==> p(s[i])
    ensures Where(s, p) == s
    decreases |s|
  {
    if s != [] {
      var n := |s| - 1;
      var init := s[..n];
      assert forall i :: 0 <= i < |init| ==> init[i] == s[i];
      WhereAll(init, p);
      assert Where(s, p) == init + [s[n]];
      assert s == init + [s[n]];
    }
  }

  /** A filter that holds on no row keeps nothing. */
  lemma {:induction false} WhereNone<T>(s: seq<T>, p: T -> bool)
    requires forall x :: x in s ==> !p(x)
    ensures Where(s, p) == []
    decreases |s|
  {
    if s != [] {
      var n := |s| - 1;
      assert forall x :: x in s[..n] ==> x in s;
      WhereNone(s[..n], p);
      assert s[n] in s;
    }
  }

  /** A stronger filter keeps a subsequence of what a weaker one keeps: its
      result is the weaker result filtered again, so it is no longer. */
  lemma WhereNarrows<T>(s: seq<T>, strong: T -> bool, weak: T -> bool)
    requires forall x :: x in s && strong(x) ==> weak(x)
    ensures Where(Where(s, weak), strong) == Where(s, strong)
    ensures |Where(s, strong)| <= |Where(s, weak)|
  {
    WhereWhere(s, weak, strong, strong);
  }

  /** Filtering a concatenation filters each part. */
  lemma {:induction false} WhereConcat<T>(a: seq<T>, b: seq<T>, p: T -> bool)
    ensures Where(a + b, p) == Where(a, p) + Where(b, p)
    decreases |b|
  {
    if b == [] {
      assert a + b == a;
    } else {
      var n := |b| - 1;
      assert (a + b)[..|a + b| - 1] == a + b[..n];
      WhereConcat(a, b[..n], p);
    }
  }

  /** `Where(s, p)` is a subsequence of `s`: row `k` of the result is row
      `pos[k]` of `s`, the positions increase, and they are exactly the
      positions of the rows that satisfy `p`. */
  lemma WherePositions<T>(s: seq<T>, p: T -> bool) returns (pos: seq<nat>)
    ensures |pos| == |Where(s, p)|
    ensures forall k :: 0 <= k < |pos| ==> pos[k] < |s| && Where(s, p)[k] == s[pos[k]]
    ensures forall k, l :: 0 <= k < l < |pos| ==> pos[k] < pos[l]
    ensures forall i :: 0 <= i < |s| ==> (i in pos <==> p(s[i]))
  {
    var mask := seq(|s|, i requires 0 <= i < |s| => p(s[i]));
    KeepWhere(s, mask, p);
    KeepAt(s, mask);
    pos := Positions(mask);
  }
}
