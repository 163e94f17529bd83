// Tag-list cells: a cell holds several tags joined by commas, and a row
// carries a tag when the tag equals one of the cell's comma-separated
// pieces after `strip()`.
module Tags {
  import opened PyText

  /** A table cell as pandas holds it: a string, or missing (NaN). */
  datatype Cell = Missing | Value(text: string)

  /** `fillna('')`: a missing cell reads as the empty string. */
  function FillNa(c: Cell): (r: string)
    ensures r == "" <==> c == Missing || c == Value("")
  {
    match c
    case Missing => ""
    case Value(s) => s
  }

  /** `[s.strip() for s in pieces]`. */
  function StripEach(pieces: seq<string>): (r: seq<string>)
    ensures |r| == |pieces|
    decreases |pieces|
  {
    if pieces == [] then []
    else StripEach(pieces[..|pieces| - 1]) + [Strip(pieces[|pieces| - 1])]
  }

  /** `[s.strip() for s in cell.split(',')]`: the tokens of a cell. */
  function Tokens(cell: string): (r: seq<string>)
    ensures |r| >= 1
  {
    StripEach(Split(cell, ','))
  }

  /** Every token is a stripped piece. */
  lemma {:induction false} StripEachSource(pieces: seq<string>, x: string) returns (k: nat)
    requires x in StripEach(pieces)
    ensures k < |pieces| && Strip(pieces[k]) == x
    decreases |pieces|
  {
    var n := |pieces| - 1;
    if x in StripEach(pieces[..n]) {
      k := StripEachSource(pieces[..n], x);
      assert pieces[..n][k] == pieces[k];
    } else {
      k := n;
    }
  }

  /** Every piece, stripped, is the token at the same place. */
  lemma {:induction false} StripEachAt(pieces: seq<string>, k: nat)
    requires k < |pieces|
    ensures StripEach(pieces)[k] == Strip(pieces[k])
    decreases |pieces|
  {
    var n := |pieces| - 1;
    if k < n {
      StripEachAt(pieces[..n], k);
      assert pieces[..n][k] == pieces[k];
    }
  }

  lemma {:induction false} StripEachAppend(a: seq<string>, b: seq<string>)
    ensures StripEach(a + b) == StripEach(a) + StripEach(b)
    decreases |b|
  {
    if b == [] {
      assert a + b == a;
    } else {
      var n := |b| - 1;
      assert (a + b)[..|a + b| - 1] == a + b[..n];
      StripEachAppend(a, b[..n]);
    }
  }

  /** `tag in [s.strip() for s in cell.split(',')]`. */
  predicate HasTag(cell: string, tag: string) {
    tag in Tokens(cell)
  }

  lemma StripKeepsOut(s: string, c: char)
    requires c !in s
    ensures c !in Strip(s)
  {
    var i := StripSlice(s);
  }

  /** `[i.strip() for i in items if i.strip()]`: every entry stripped, the
      blank ones dropped, order kept. */
  function Clean(items: seq<string>): (r: seq<string>)
    ensures |r| <= |items|
    ensures forall k :: 0 <= k < |r| ==> r[k] != "" && Trimmed(r[k])
    decreases |items|
  {
    if items == [] then []
    else
      var n := |items| - 1;
      var t := Strip(items[n]);
      StripIsTrimmed(items[n]);
      Clean(items[..n]) + (if t != "" then [t] else [])
  }

  /** Every item that is not blank after stripping survives cleanup, in its
      stripped form. */
  lemma {:induction false} CleanKeeps(items: seq<string>, i: nat)
    requires i < |items| && Strip(items[i]) != ""
    ensures Strip(items[i]) in Clean(items)
    decreases |items|
  {
    var n := |items| - 1;
    if i < n {
      CleanKeeps(items[..n], i);
      assert items[..n][i] == items[i];
    }
  }

  /** Every entry that survives cleanup is the stripped form of an item. */
  lemma {:induction false} CleanSource(items: seq<string>, x: string) returns (i: nat)
    requires x in Clean(items)
    ensures i < |items| && Strip(items[i]) == x
    decreases |items|
  {
    var n := |items| - 1;
    if x in Clean(items[..n]) {
      i := CleanSource(items[..n], x);
      assert items[..n][i] == items[i];
    } else {
      i := n;
    }
  }

  /** `[i.strip() for i in s.split(',') if i.strip()]`: the non-blank
      stripped pieces of a comma-separated string. */
  function SplitTags(s: string): (r: seq<string>)
    ensures forall k :: 0 <= k < |r| ==> r[k] != "" && Trimmed(r[k])
  {
    Clean(Split(s, ','))
  }

  // ---------------------------------------------------------------------
  // Properties of the matcher

  /** An empty cell has the single token "", so it carries no tag but "". */
  lemma HasTagEmpty(tag: string)
    ensures HasTag("", tag) <==> tag == ""
  {
    assert Tokens("") == [""];
  }

  /** A cell carries a tag exactly when the tag is one of its comma-separated
      pieces after stripping. */
  lemma HasTagIff(cell: string, tag: string)
    ensures HasTag(cell, tag) <==> exists k :: 0 <= k < |Split(cell, ',')| && Strip(Split(cell, ',')[k]) == tag
  {
    var pieces := Split(cell, ',');
    if HasTag(cell, tag) {
      var k := StripEachSource(pieces, tag);
      assert 0 <= k < |Split(cell, ',')| && Strip(Split(cell, ',')[k]) == tag;
    }
    forall k | 0 <= k < |pieces| && Strip(pieces[k]) == tag ensures HasTag(cell, tag) {
      StripEachAt(pieces, k);
    }
  }

  /** A stripped tag without a comma is the one token of its own cell. */
  lemma TokensOfTag(t: string)
    requires Trimmed(t) && ',' !in t
    ensures Tokens(t) == [t]
  {
    SplitNoSeparator(t, ',');
    StripTrimmed(t);
  }

  /** One selected entry that strips to itself is the whole cleaned list. */
  lemma CleanOne(x: string)
    requires Trimmed(x) && x != ""
    ensures Clean([x]) == [x]
  {
    StripTrimmed(x);
  }

  /** Tokens are stripped, so a tag with whitespace at either end, or with a
      comma in it, is never carried. */
  lemma HasTagStripped(cell: string, tag: string)
    requires HasTag(cell, tag)
    ensures Strip(tag) == tag && ',' !in tag
  {
    var pieces := Split(cell, ',');
    var k := StripEachSource(pieces, tag);
    SplitPieces(cell, ',');
    StripKeepsOut(pieces[k], ',');
    StripIsTrimmed(pieces[k]);
    StripTrimmed(tag);
  }

  /** Joining two cells with a comma concatenates their token lists. */
  lemma TokensConcat(a: string, b: string)
    ensures Tokens(a + "," + b) == Tokens(a) + Tokens(b)
  {
    assert a + "," + b == a + [','] + b;
    SplitConcat(a, b, ',');
    StripEachAppend(Split(a, ','), Split(b, ','));
  }

  /** A cell made by joining two cells with a comma carries exactly the tags
      of either. */
  lemma HasTagConcat(a: string, b: string, tag: string)
    ensures HasTag(a + "," + b, tag) <==> HasTag(a, tag) || HasTag(b, tag)
  {
    TokensConcat(a, b);
  }

  /** Whitespace around a token does not matter: a comma-free trimmed tag
      padded with whitespace on both sides is carried. */
  lemma HasTagPadded(w1: string, tag: string, w2: string)
    requires AllSpace(w1) && AllSpace(w2) && Trimmed(tag)
    requires ',' !in w1 + tag + w2
    ensures HasTag(w1 + tag + w2, tag)
  {
    SplitNoSeparator(w1 + tag + w2, ',');
    StripPadded(w1, tag, w2);
    assert Tokens(w1 + tag + w2)[0] == tag;
  }

  /** Cleanup distributes over concatenation of the entry lists. */
  lemma {:induction false} CleanAppend(a: seq<string>, b: seq<string>)
    ensures Clean(a + b) == Clean(a) + Clean(b)
    decreases |b|
  {
    if b == [] {
      assert a + b == a;
    } else {
      var n := |b| - 1;
      assert (a + b)[..|a + b| - 1] == a + b[..n];
      CleanAppend(a, b[..n]);
    }
  }

  /** Appending `,t` to a comma-separated string appends the tags of `t`. */
  lemma SplitTagsAppend(s: string, t: string)
    ensures SplitTags(s + "," + t) == SplitTags(s) + SplitTags(t)
  {
    assert s + "," + t == s + [','] + t;
    SplitConcat(s, t, ',');
    CleanAppend(Split(s, ','), Split(t, ','));
  }

  /** A string of only whitespace and commas yields no tags. */
  lemma SplitTagsBlank(s: string)
    requires forall k :: 0 <= k < |s| ==> s[k] == ',' || IsSpace(s[k])
    ensures SplitTags(s) == []
  {
    var pieces := Split(s, ',');
    JoinSplit(s, ',');
    SplitPieces(s, ',');
    forall k | 0 <= k < |pieces|
      ensures Strip(pieces[k]) == ""
    {
      JoinedPieceBlank(pieces, k, s);
      StripBlank(pieces[k]);
    }
    CleanBlank(pieces);
  }

  lemma {:induction false} JoinedPieceBlank(pieces: seq<string>, k: nat, s: string)
    requires k < |pieces| && Join(pieces, ',') == s
    requires forall j :: 0 <= j < |s| ==> s[j] == ',' || IsSpace(s[j])
    requires forall j :: 0 <= j < |pieces| ==> ',' !in pieces[j]
    ensures AllSpace(pieces[k])
    decreases |pieces|
  {
    if |pieces| == 1 {
    } else {
      var rest := Join(pieces[1..], ',');
      assert s == pieces[0] + [','] + rest;
      if k == 0 {
        forall j | 0 <= j < |pieces[0]| ensures IsSpace(pieces[0][j]) {
          assert s[j] == pieces[0][j];
          assert pieces[0][j] in pieces[0];
        }
      } else {
        forall j | 0 <= j < |rest| ensures rest[j] == ',' || IsSpace(rest[j]) {
          assert rest[j] == s[|pieces[0]| + 1 + j];
        }
        JoinedPieceBlank(pieces[1..], k - 1, rest);
      }
    }
  }

  lemma {:induction false} CleanBlank(items: seq<string>)
    requires forall k :: 0 <= k < |items| ==> Strip(items[k]) == ""
    ensures Clean(items) == []
    decreases |items|
  {
    if items != [] {
      CleanBlank(items[..|items| - 1]);
    }
  }
}
