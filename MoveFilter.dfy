// The moves filter `filter_df` (app.py:49-85): rows of the FMoves sheet are
// kept when (some selected role OR some selected race) AND (every special
// tag), matched against comma-separated tag-list cells.
module MoveFilter {
  import opened PyText
  import opened Tags
  import opened Frames

  /** A row of the FMoves sheet: its three tag-list cells and the rest of its
      cells, which filtering carries through unchanged. */
  datatype Move = Move(roles: Cell, races: Cell, special: Cell, others: seq<Cell>)

  datatype Column = Roles | Races | Special

  function CellOf(m: Move, c: Column): Cell {
    match c
    case Roles => m.roles
    case Races => m.races
    case Special => m.special
  }

  /** `df[c].fillna('').str.split(',').apply(lambda x: tag in [s.strip() for s in x])`. */
  function TagMask(df: seq<Move>, c: Column, tag: string): (r: seq<bool>)
    ensures |r| == |df|
  {
    seq(|df|, i requires 0 <= i < |df| => HasTag(FillNa(CellOf(df[i], c)), tag))
  }

  /** `df['races'].fillna('') != ''`: the raw cell is compared, unstripped. */
  function NonEmptyMask(df: seq<Move>): (r: seq<bool>)
    ensures |r| == |df|
  {
    seq(|df|, i requires 0 <= i < |df| => FillNa(df[i].races) != "")
  }

  /** The selections of one call after cleanup: `role_search`, `race_search`
      before the sentinel is removed, and `special_search`. */
  datatype Query = Query(roleSearch: seq<string>, raceSearch: seq<string>, specialSearch: seq<string>)

  function Prepare(roleItems: seq<string>, raceItems: seq<string>, specialItems: string): Query {
    Query(Clean(roleItems), Clean(raceItems), SplitTags(specialItems))
  }

  /** The race entries matched literally: every "All" removed. */
  function LiteralRaces(raceSearch: seq<string>): (r: seq<string>)
    ensures "All" !in r && |r| <= |raceSearch|
  {
    WhereMember(raceSearch, (x: string) => x != "All", "All");
    Where(raceSearch, (x: string) => x != "All")
  }

  /** Some tag of `tags` is among the tokens of the row's cell in `c`. */
  predicate CarriesAny(m: Move, c: Column, tags: seq<string>) {
    exists t :: t in tags && HasTag(FillNa(CellOf(m, c)), t)
  }

  /** Every tag of `tags` is among the tokens of the row's cell in `c`. */
  predicate CarriesAll(m: Move, c: Column, tags: seq<string>) {
    forall t :: t in tags ==> HasTag(FillNa(CellOf(m, c)), t)
  }

  /** The OR stage: with no role and no race selection every row passes;
      otherwise some role mask or race mask is true for the row. */
  predicate OrStage(m: Move, q: Query) {
    (q.roleSearch == [] && q.raceSearch == [])
    || CarriesAny(m, Roles, q.roleSearch)
    || ("All" in q.raceSearch && FillNa(m.races) != "")
    || CarriesAny(m, Races, LiteralRaces(q.raceSearch))
  }

  predicate Matches(m: Move, q: Query) {
    OrStage(m, q) && CarriesAll(m, Special, q.specialSearch)
  }

  /** What `filter_df(role_items, race_items, special_items)` returns, as a
      filter over the rows of FMoves. */
  function FilterSpec(df: seq<Move>, roleItems: seq<string>, raceItems: seq<string>, specialItems: string): (r: seq<Move>)
    ensures |r| <= |df|
  {
    var q := Prepare(roleItems, raceItems, specialItems);
    Where(df, (m: Move) => Matches(m, q))
  }

  /** The OR-stage rows narrowed by the special tags `tags`. */
  function Narrowed(df: seq<Move>, q: Query, tags: seq<string>): seq<Move> {
    Where(df, (m: Move) => OrStage(m, q) && CarriesAll(m, Special, tags))
  }

  /** What a call of `filter_df` produces: the result table, or the
      `KeyError` of a special tag looked up on a frame without columns. */
  datatype Outcome = KeyError | Table(rows: seq<Move>)

  /** The special loop masks the running frame with `.apply`. On a frame
      with no rows that mask is an empty object Series, which pandas reads as
      a list of column labels, so the frame loses every column and the next
      tag's `filtered_df['special']` raises. This happens exactly when the
      rows run out before the last special tag is applied. */
  predicate EmptiesBeforeLast(df: seq<Move>, q: Query, tags: seq<string>) {
    exists j :: 0 <= j < |tags| - 1 && Narrowed(df, q, tags[..j]) == []
  }

  /** The outcome of `filter_df(role_items, race_items, special_items)` as the
      code is written. */
  function FilterOutcome(df: seq<Move>, roleItems: seq<string>, raceItems: seq<string>, specialItems: string): Outcome {
    var q := Prepare(roleItems, raceItems, specialItems);
    if EmptiesBeforeLast(df, q, q.specialSearch) then KeyError
    else Table(FilterSpec(df, roleItems, raceItems, specialItems))
  }

  /** `filter_df`, step by step as the source runs it: one mask per role, the
      "All" mask and one mask per literal race, their OR, then one
      narrowing per special tag. */
  method FilterDf(df: seq<Move>, roleItems: seq<string>, raceItems: seq<string>, specialItems: string)
    returns (result: Outcome)
    ensures result == FilterOutcome(df, roleItems, raceItems, specialItems)
  {
    ghost var q := Prepare(roleItems, raceItems, specialItems);

    var roleMasks := RoleMasks(df, Clean(roleItems));
    var raceMasks := RaceMasks(df, Clean(raceItems));

    var filtered := OrMasks(df, q, roleMasks, raceMasks);
    result := NarrowBySpecial(df, q, filtered, SplitTags(specialItems));
    NarrowedFully(df, q);
  }

  /** The role loop of `filter_df`: one mask per role entry. */
  method RoleMasks(df: seq<Move>, roleSearch: seq<string>) returns (roleMasks: seq<seq<bool>>)
    ensures RoleMasksBuilt(df, roleSearch, roleMasks)
  {
    roleMasks := [];
    for i := 0 to |roleSearch|
      invariant |roleMasks| == i
      invariant forall k :: 0 <= k < i ==> roleMasks[k] == TagMask(df, Roles, roleSearch[k])
    {
      roleMasks := roleMasks + [TagMask(df, Roles, roleSearch[i])];
    }
  }

  /** The race loop of `filter_df`: when "All" is selected, first the mask of
      rows whose race cell is not empty, then one mask per race entry other
      than "All". */
  method RaceMasks(df: seq<Move>, raceSearch: seq<string>) returns (raceMasks: seq<seq<bool>>)
    ensures RaceMasksBuilt(df, raceSearch, raceMasks)
  {
    var literal := raceSearch;
    raceMasks := [];
    if "All" in literal {
      raceMasks := raceMasks + [NonEmptyMask(df)];
      literal := LiteralRaces(literal);
    } else {
      LiteralWithoutSentinel(literal);
    }
    var offset := |raceMasks|;
    assert offset == SentinelCount(raceSearch) && literal == LiteralRaces(raceSearch);
    for i := 0 to |literal|
      invariant |raceMasks| == offset + i
      invariant offset == 1 ==> raceMasks[0] == NonEmptyMask(df)
      invariant forall k :: 0 <= k < i ==> raceMasks[offset + k] == TagMask(df, Races, literal[k])
    {
      raceMasks := raceMasks + [TagMask(df, Races, literal[i])];
    }
  }

  /** The OR of all masks of `filter_df`, or the whole table when no role
      and no race is selected. */
  method OrMasks(df: seq<Move>, ghost q: Query, roleMasks: seq<seq<bool>>, raceMasks: seq<seq<bool>>)
    returns (filtered: seq<Move>)
    requires RoleMasksBuilt(df, q.roleSearch, roleMasks) && RaceMasksBuilt(df, q.raceSearch, raceMasks)
    ensures filtered == Narrowed(df, q, [])
  {
    var allMasks := roleMasks + raceMasks;
    OrCombine(df, q, roleMasks, raceMasks);
    if allMasks != [] {
      filtered := Keep(df, AnyOf(allMasks, |df|));
    } else {
      filtered := df;
    }
  }

  /** The special loop of `filter_df`: each special tag narrows the rows kept
      so far to those carrying it. */
  method NarrowBySpecial(df: seq<Move>, ghost q: Query, start: seq<Move>, specialSearch: seq<string>)
    returns (outcome: Outcome)
    requires start == Narrowed(df, q, [])
    ensures outcome == if EmptiesBeforeLast(df, q, specialSearch) then KeyError else Table(Narrowed(df, q, specialSearch))
  {
    var filtered := start;
    var hasColumns := true;
    for i := 0 to |specialSearch|
      invariant filtered == Narrowed(df, q, specialSearch[..i])
      invariant 0 < i ==> NonEmptyBefore(df, q, specialSearch, i - 1)
      invariant hasColumns ==> NonEmptyBefore(df, q, specialSearch, i)
      invariant !hasColumns ==> 0 < i && Narrowed(df, q, specialSearch[..i - 1]) == []
    {
      if !hasColumns {
        EmptyAt(df, q, specialSearch, i - 1);
        return KeyError;
      }
      var mask := TagMask(filtered, Special, specialSearch[i]);
      // A mask over no rows selects columns, and there are none to select.
      hasColumns := filtered != [];
      NarrowStep(df, q, specialSearch[..i], specialSearch[i]);
      if hasColumns {
        NonEmptyStep(df, q, specialSearch, i);
      }
      filtered := Keep(filtered, mask);
      assert specialSearch[..i + 1] == specialSearch[..i] + [specialSearch[i]];
    }
    assert specialSearch[..|specialSearch|] == specialSearch;
    NeverEmpty(df, q, specialSearch);
    outcome := Table(filtered);
  }

  /** The running frame had rows before each of the first `n` special tags. */
  predicate NonEmptyBefore(df: seq<Move>, q: Query, tags: seq<string>, n: nat) {
    forall j :: 0 <= j < n && j <= |tags| ==> Narrowed(df, q, tags[..j]) != []
  }

  /** Rows used up before a tag that is not the last: the loop raises. */
  lemma EmptyAt(df: seq<Move>, q: Query, tags: seq<string>, j: nat)
    requires j < |tags| - 1 && Narrowed(df, q, tags[..j]) == []
    ensures EmptiesBeforeLast(df, q, tags)
  {
  }

  /** Rows before every tag but the last: the loop does not raise. */
  lemma NeverEmpty(df: seq<Move>, q: Query, tags: seq<string>)
    requires |tags| == 0 || NonEmptyBefore(df, q, tags, |tags| - 1)
    ensures !EmptiesBeforeLast(df, q, tags)
  {
  }

  lemma NonEmptyStep(df: seq<Move>, q: Query, tags: seq<string>, i: nat)
    requires i <= |tags| && NonEmptyBefore(df, q, tags, i) && Narrowed(df, q, tags[..i]) != []
    ensures NonEmptyBefore(df, q, tags, i + 1)
  {
  }

  /** The source raises only where the intended result is the empty table,
      so whenever some row matches it returns exactly the intended rows. */
  lemma KeyErrorOnlyWhenEmpty(df: seq<Move>, roleItems: seq<string>, raceItems: seq<string>, specialItems: string)
    ensures FilterOutcome(df, roleItems, raceItems, specialItems) == KeyError
            ==> FilterSpec(df, roleItems, raceItems, specialItems) == []
    ensures FilterSpec(df, roleItems, raceItems, specialItems) != []
            ==> FilterOutcome(df, roleItems, raceItems, specialItems) == Table(FilterSpec(df, roleItems, raceItems, specialItems))
  {
    var q := Prepare(roleItems, raceItems, specialItems);
    var tags := q.specialSearch;
    if EmptiesBeforeLast(df, q, tags) {
      var j :| 0 <= j < |tags| - 1 && Narrowed(df, q, tags[..j]) == [];
      assert tags[..j] + tags[j..] == tags;
      forall m | m in df ensures !Matches(m, q) {
        WhereMember(df, (x: Move) => OrStage(x, q) && CarriesAll(x, Special, tags[..j]), m);
        CarriesAllConcat(m, Special, tags[..j], tags[j..]);
      }
      WhereNone(df, (m: Move) => Matches(m, q));
    }
  }

  /** With two or more special tags and no row passing the OR stage (a role
      or race that no move carries, or an empty sheet), the source raises
      `KeyError` where the empty table is meant. */
  lemma UnmatchedSelectionRaises(df: seq<Move>, roleItems: seq<string>, raceItems: seq<string>, specialItems: string)
    requires |SplitTags(specialItems)| >= 2
    requires forall m :: m in df ==> !OrStage(m, Prepare(roleItems, raceItems, specialItems))
    ensures FilterOutcome(df, roleItems, raceItems, specialItems) == KeyError
    ensures FilterSpec(df, roleItems, raceItems, specialItems) == []
  {
    var q := Prepare(roleItems, raceItems, specialItems);
    WhereNone(df, (m: Move) => OrStage(m, q) && CarriesAll(m, Special, q.specialSearch[..0]));
    EmptyAt(df, q, q.specialSearch, 0);
    KeyErrorOnlyWhenEmpty(df, roleItems, raceItems, specialItems);
  }

  /** An empty FMoves sheet with a role selected and the special string
      "a,b" raises. */
  lemma EmptySheetRaises()
    ensures FilterOutcome([], ["Tank"], [], "a,b") == KeyError
  {
    SplitNoSeparator("a", ',');
    SplitNoSeparator("b", ',');
    CleanOne("a");
    CleanOne("b");
    assert "a,b" == "a" + "," + "b";
    SplitTagsAppend("a", "b");
    UnmatchedSelectionRaises([], ["Tank"], [], "a,b");
  }

  /** Once every special tag is required, the narrowed rows are the rows
      that match the query. */
  lemma NarrowedFully(df: seq<Move>, q: Query)
    ensures Narrowed(df, q, q.specialSearch) == Where(df, (m: Move) => Matches(m, q))
  {
    WhereSame(df, (m: Move) => OrStage(m, q) && CarriesAll(m, Special, q.specialSearch),
              (m: Move) => Matches(m, q));
  }

  /** Requiring one more tag of a cell is requiring the old tags and it. */
  lemma CarriesAllSnoc(m: Move, c: Column, tags: seq<string>, tag: string)
    ensures CarriesAll(m, c, tags + [tag]) <==> CarriesAll(m, c, tags) && HasTag(FillNa(CellOf(m, c)), tag)
  {
    if CarriesAll(m, c, tags + [tag]) {
      forall t | t in tags ensures HasTag(FillNa(CellOf(m, c)), t) {
        assert t in tags + [tag];
      }
      assert tag in tags + [tag];
    }
  }

  /** One special tag narrows the running result by that tag's mask. */
  lemma NarrowStep(df: seq<Move>, q: Query, tags: seq<string>, tag: string)
    ensures Keep(Narrowed(df, q, tags), TagMask(Narrowed(df, q, tags), Special, tag))
            == Narrowed(df, q, tags + [tag])
  {
    var before := Narrowed(df, q, tags);
    var mask := TagMask(before, Special, tag);
    forall i | 0 <= i < |before| ensures mask[i] == HasTag(FillNa(before[i].special), tag) {
    }
    KeepWhere(before, mask, (m: Move) => HasTag(FillNa(m.special), tag));
    forall m | m in df
      ensures (OrStage(m, q) && CarriesAll(m, Special, tags + [tag]))
              == ((OrStage(m, q) && CarriesAll(m, Special, tags)) && HasTag(FillNa(m.special), tag))
    {
      CarriesAllSnoc(m, Special, tags, tag);
    }
    WhereWhere(df, (m: Move) => OrStage(m, q) && CarriesAll(m, Special, tags),
               (m: Move) => HasTag(FillNa(m.special), tag),
               (m: Move) => OrStage(m, q) && CarriesAll(m, Special, tags + [tag]));
  }

  /** 1 when the race selection holds the "All" sentinel, whose mask comes
      first among the race masks. */
  function SentinelCount(raceSearch: seq<string>): nat {
    if "All" in raceSearch then 1 else 0
  }

  /** The role masks `filter_df` has built: one per role entry, in order. */
  predicate RoleMasksBuilt(df: seq<Move>, roleSearch: seq<string>, roleMasks: seq<seq<bool>>) {
    |roleMasks| == |roleSearch|
    && forall k :: 0 <= k < |roleMasks| ==> roleMasks[k] == TagMask(df, Roles, roleSearch[k])
  }

  /** The race masks `filter_df` has built: the sentinel's mask if any, then
      one per literal race entry, in order. */
  predicate RaceMasksBuilt(df: seq<Move>, raceSearch: seq<string>, raceMasks: seq<seq<bool>>) {
    var literal := LiteralRaces(raceSearch);
    |raceMasks| == SentinelCount(raceSearch) + |literal|
    && ("All" in raceSearch ==> raceMasks[0] == NonEmptyMask(df))
    && forall k :: 0 <= k < |literal| ==> raceMasks[SentinelCount(raceSearch) + k] == TagMask(df, Races, literal[k])
  }

  lemma MaskLengths(df: seq<Move>, q: Query, roleMasks: seq<seq<bool>>, raceMasks: seq<seq<bool>>)
    requires RoleMasksBuilt(df, q.roleSearch, roleMasks) && RaceMasksBuilt(df, q.raceSearch, raceMasks)
    ensures forall k :: 0 <= k < |roleMasks + raceMasks| ==> |(roleMasks + raceMasks)[k]| == |df|
  {
    var offset := SentinelCount(q.raceSearch);
    var literal := LiteralRaces(q.raceSearch);
    forall k | 0 <= k < |raceMasks| ensures |raceMasks[k]| == |df| {
      if k >= offset {
        assert raceMasks[offset + (k - offset)] == TagMask(df, Races, literal[k - offset]);
      }
    }
  }

  /** Without the sentinel every race entry is matched literally. */
  lemma LiteralWithoutSentinel(raceSearch: seq<string>)
    requires "All" !in raceSearch
    ensures LiteralRaces(raceSearch) == raceSearch
  {
    WhereAll(raceSearch, (x: string) => x != "All");
  }

  /** A row that some role mask selects passes the OR stage. */
  lemma RoleMaskSound(df: seq<Move>, q: Query, roleMasks: seq<seq<bool>>, k: nat, j: nat)
    requires RoleMasksBuilt(df, q.roleSearch, roleMasks)
    requires k < |roleMasks| && j < |df| && roleMasks[k][j]
    ensures OrStage(df[j], q)
  {
    assert roleMasks[k] == TagMask(df, Roles, q.roleSearch[k]);
    assert q.roleSearch[k] in q.roleSearch;
  }

  /** A row that some race mask selects passes the OR stage. */
  lemma RaceMaskSound(df: seq<Move>, q: Query, raceMasks: seq<seq<bool>>, k: nat, j: nat)
    requires RaceMasksBuilt(df, q.raceSearch, raceMasks)
    requires k < |raceMasks| && j < |df| == |raceMasks[k]| && raceMasks[k][j]
    ensures OrStage(df[j], q)
  {
    var literal := LiteralRaces(q.raceSearch);
    if k < SentinelCount(q.raceSearch) {
      assert FillNa(df[j].races) != "";
    } else {
      var r := k - SentinelCount(q.raceSearch);
      assert raceMasks[SentinelCount(q.raceSearch) + r] == TagMask(df, Races, literal[r]);
      assert literal[r] in literal;
    }
  }

  /** Combining the masks with OR (or keeping every row when there is none)
      is the OR stage, with no special tag required yet. */
  lemma OrCombine(df: seq<Move>, q: Query, roleMasks: seq<seq<bool>>, raceMasks: seq<seq<bool>>)
    requires RoleMasksBuilt(df, q.roleSearch, roleMasks) && RaceMasksBuilt(df, q.raceSearch, raceMasks)
    ensures roleMasks + raceMasks != [] ==>
      forall k :: 0 <= k < |roleMasks + raceMasks| ==> |(roleMasks + raceMasks)[k]| == |df|
    ensures roleMasks + raceMasks != [] ==>
      Keep(df, AnyOf(roleMasks + raceMasks, |df|)) == Narrowed(df, q, [])
    ensures roleMasks + raceMasks == [] ==> df == Narrowed(df, q, [])
  {
    var allMasks := roleMasks + raceMasks;
    if allMasks != [] {
      MaskLengths(df, q, roleMasks, raceMasks);
      var combined := AnyOf(allMasks, |df|);
      assert q.roleSearch != [] || q.raceSearch != [];
      forall j | 0 <= j < |df|
        ensures combined[j] == OrStage(df[j], q)
      {
        if combined[j] {
          AnyRowSound(df, q, roleMasks, raceMasks, j);
        }
        if OrStage(df[j], q) {
          AnyRowComplete(df, q, roleMasks, raceMasks, j);
        }
      }
      KeepWhere(df, combined, (m: Move) => OrStage(m, q));
    } else {
      WhereAll(df, (m: Move) => OrStage(m, q));
    }
    WhereSame(df, (m: Move) => OrStage(m, q), (m: Move) => OrStage(m, q) && CarriesAll(m, Special, []));
  }

  /** A row that some mask selects passes the OR stage. */
  lemma AnyRowSound(df: seq<Move>, q: Query, roleMasks: seq<seq<bool>>, raceMasks: seq<seq<bool>>, j: nat)
    requires j < |df| && RoleMasksBuilt(df, q.roleSearch, roleMasks) && RaceMasksBuilt(df, q.raceSearch, raceMasks)
    requires forall k :: 0 <= k < |roleMasks + raceMasks| ==> |(roleMasks + raceMasks)[k]| == |df|
    requires AnyOf(roleMasks + raceMasks, |df|)[j]
    ensures OrStage(df[j], q)
  {
    var all := roleMasks + raceMasks;
    var k :| 0 <= k < |all| && all[k][j];
    if k < |roleMasks| {
      RoleMaskSound(df, q, roleMasks, k, j);
    } else {
      assert all[k] == raceMasks[k - |roleMasks|];
      RaceMaskSound(df, q, raceMasks, k - |roleMasks|, j);
    }
  }

  /** A row that passes the OR stage while some role or race is selected is
      selected by some mask. */
  lemma AnyRowComplete(df: seq<Move>, q: Query, roleMasks: seq<seq<bool>>, raceMasks: seq<seq<bool>>, j: nat)
    requires j < |df| && RoleMasksBuilt(df, q.roleSearch, roleMasks) && RaceMasksBuilt(df, q.raceSearch, raceMasks)
    requires forall k :: 0 <= k < |roleMasks + raceMasks| ==> |(roleMasks + raceMasks)[k]| == |df|
    requires q.roleSearch != [] || q.raceSearch != []
    requires OrStage(df[j], q)
    ensures AnyOf(roleMasks + raceMasks, |df|)[j]
  {
    var all := roleMasks + raceMasks;
    var m := df[j];
    if CarriesAny(m, Roles, q.roleSearch) {
      var t :| t in q.roleSearch && HasTag(FillNa(m.roles), t);
      var k :| 0 <= k < |q.roleSearch| && q.roleSearch[k] == t;
      assert roleMasks[k] == TagMask(df, Roles, t);
      assert all[k][j];
    } else if "All" in q.raceSearch && FillNa(m.races) != "" {
      assert all[|roleMasks|] == NonEmptyMask(df);
      assert all[|roleMasks|][j];
    } else {
      var literal := LiteralRaces(q.raceSearch);
      var t :| t in literal && HasTag(FillNa(m.races), t);
      var r :| 0 <= r < |literal| && literal[r] == t;
      var k := |roleMasks| + SentinelCount(q.raceSearch) + r;
      assert all[k] == raceMasks[SentinelCount(q.raceSearch) + r] == TagMask(df, Races, t);
      assert all[k][j];
    }
  }

  // ---------------------------------------------------------------------
  // Properties of `filter_df`

  /** A row is in the result exactly when it is a row of FMoves that passes
      the OR stage and carries every special tag. */
  lemma FilterMember(df: seq<Move>, roleItems: seq<string>, raceItems: seq<string>, specialItems: string, m: Move)
    ensures m in FilterSpec(df, roleItems, raceItems, specialItems)
            <==> m in df && Matches(m, Prepare(roleItems, raceItems, specialItems))
  {
    WhereMember(df, (x: Move) => Matches(x, Prepare(roleItems, raceItems, specialItems)), m);
  }

  /** The result is the matching rows of FMoves, in their original order and
      renumbered from 0: row `k` of the result is row `pos[k]` of FMoves. */
  lemma FilterOrder(df: seq<Move>, roleItems: seq<string>, raceItems: seq<string>, specialItems: string)
    returns (pos: seq<nat>)
    ensures |pos| == |FilterSpec(df, roleItems, raceItems, specialItems)|
    ensures forall k :: 0 <= k < |pos| ==>
      pos[k] < |df| && FilterSpec(df, roleItems, raceItems, specialItems)[k] == df[pos[k]]
    ensures forall k, l :: 0 <= k < l < |pos| ==> pos[k] < pos[l]
    ensures forall i :: 0 <= i < |df| ==>
      (i in pos <==> Matches(df[i], Prepare(roleItems, raceItems, specialItems)))
  {
    pos := WherePositions(df, (x: Move) => Matches(x, Prepare(roleItems, raceItems, specialItems)));
  }

  /** The race entries matched literally are the selected ones except "All". */
  lemma LiteralRacesMember(raceSearch: seq<string>, t: string)
    ensures t in LiteralRaces(raceSearch) <==> t in raceSearch && t != "All"
  {
    WhereMember(raceSearch, (x: string) => x != "All", t);
  }

  /** With nothing selected anywhere, every row is returned. */
  lemma NoSelectionKeepsAll(df: seq<Move>, roleItems: seq<string>, raceItems: seq<string>, specialItems: string)
    requires Clean(roleItems) == [] && Clean(raceItems) == [] && SplitTags(specialItems) == []
    ensures FilterSpec(df, roleItems, raceItems, specialItems) == df
  {
    WhereAll(df, (x: Move) => Matches(x, Prepare(roleItems, raceItems, specialItems)));
  }

  /** An empty special string, or one of only commas and whitespace,
      requires no special tag: the result is the OR stage alone. */
  lemma BlankSpecialIgnored(df: seq<Move>, roleItems: seq<string>, raceItems: seq<string>, specialItems: string)
    requires forall k :: 0 <= k < |specialItems| ==> specialItems[k] == ',' || IsSpace(specialItems[k])
    ensures FilterSpec(df, roleItems, raceItems, specialItems)
            == Where(df, (m: Move) => OrStage(m, Prepare(roleItems, raceItems, specialItems)))
  {
    var q := Prepare(roleItems, raceItems, specialItems);
    SplitTagsBlank(specialItems);
    WhereSame(df, (m: Move) => Matches(m, q), (m: Move) => OrStage(m, q));
  }

  /** Every tag of `a + b` is carried iff every tag of `a` and of `b` is. */
  lemma CarriesAllConcat(m: Move, c: Column, a: seq<string>, b: seq<string>)
    ensures CarriesAll(m, c, a + b) <==> CarriesAll(m, c, a) && CarriesAll(m, c, b)
  {
    if CarriesAll(m, c, a + b) {
      forall t | t in a ensures HasTag(FillNa(CellOf(m, c)), t) {
        assert t in a + b;
      }
      forall t | t in b ensures HasTag(FillNa(CellOf(m, c)), t) {
        assert t in a + b;
      }
    }
  }

  /** Appending `,t` to the special string narrows the result to the rows
      that also carry every tag of `t`, so it never grows. */
  lemma AddSpecialNarrows(df: seq<Move>, roleItems: seq<string>, raceItems: seq<string>, s: string, t: string)
    ensures FilterSpec(df, roleItems, raceItems, s + "," + t)
            == Where(FilterSpec(df, roleItems, raceItems, s), (m: Move) => CarriesAll(m, Special, SplitTags(t)))
    ensures |FilterSpec(df, roleItems, raceItems, s + "," + t)| <= |FilterSpec(df, roleItems, raceItems, s)|
  {
    var q := Prepare(roleItems, raceItems, s);
    var q' := Prepare(roleItems, raceItems, s + "," + t);
    SplitTagsAppend(s, t);
    forall m | m in df
      ensures Matches(m, q') == (Matches(m, q) && CarriesAll(m, Special, SplitTags(t)))
    {
      CarriesAllConcat(m, Special, SplitTags(s), SplitTags(t));
    }
    WhereWhere(df, (m: Move) => Matches(m, q), (m: Move) => CarriesAll(m, Special, SplitTags(t)),
               (m: Move) => Matches(m, q'));
  }

  /** Only the set of cleaned entries matters: duplicates and order of the
      selections do not change the result. */
  lemma SelectionsAsSets(df: seq<Move>, roles1: seq<string>, races1: seq<string>, special1: string,
                         roles2: seq<string>, races2: seq<string>, special2: string)
    requires forall x :: x in Clean(roles1) <==> x in Clean(roles2)
    requires forall x :: x in Clean(races1) <==> x in Clean(races2)
    requires forall x :: x in SplitTags(special1) <==> x in SplitTags(special2)
    ensures FilterSpec(df, roles1, races1, special1) == FilterSpec(df, roles2, races2, special2)
  {
    var q1 := Prepare(roles1, races1, special1);
    var q2 := Prepare(roles2, races2, special2);
    forall m | m in df ensures Matches(m, q1) == Matches(m, q2) {
      SameEntriesSameMatch(m, q1, q2);
    }
    WhereSame(df, (m: Move) => Matches(m, q1), (m: Move) => Matches(m, q2));
  }

  /** Queries with the same entries, in any order and multiplicity, match the
      same rows. */
  lemma SameEntriesSameMatch(m: Move, q1: Query, q2: Query)
    requires forall x :: x in q1.roleSearch <==> x in q2.roleSearch
    requires forall x :: x in q1.raceSearch <==> x in q2.raceSearch
    requires forall x :: x in q1.specialSearch <==> x in q2.specialSearch
    ensures Matches(m, q1) == Matches(m, q2)
  {
    SameEntriesSameOrStage(m, q1, q2);
  }

  /** Role and race selections with the same entries pass the same rows
      through the OR stage. */
  lemma SameEntriesSameOrStage(m: Move, q1: Query, q2: Query)
    requires forall x :: x in q1.roleSearch <==> x in q2.roleSearch
    requires forall x :: x in q1.raceSearch <==> x in q2.raceSearch
    ensures OrStage(m, q1) == OrStage(m, q2)
  {
    forall t ensures t in LiteralRaces(q1.raceSearch) <==> t in LiteralRaces(q2.raceSearch) {
      LiteralRacesMember(q1.raceSearch, t);
      LiteralRacesMember(q2.raceSearch, t);
    }
    if q1.roleSearch != [] {
      assert q1.roleSearch[0] in q2.roleSearch;
    }
    if q2.roleSearch != [] {
      assert q2.roleSearch[0] in q1.roleSearch;
    }
    if q1.raceSearch != [] {
      assert q1.raceSearch[0] in q2.raceSearch;
    }
    if q2.raceSearch != [] {
      assert q2.raceSearch[0] in q1.raceSearch;
    }
  }

  /** As written, duplicate or reordered role and race entries still leave
      the outcome, the `KeyError` included, unchanged: the special loop
      sees them only through the OR stage. */
  lemma RoleRaceSetsSameOutcome(df: seq<Move>, roles1: seq<string>, races1: seq<string>,
                                roles2: seq<string>, races2: seq<string>, special: string)
    requires forall x :: x in Clean(roles1) <==> x in Clean(roles2)
    requires forall x :: x in Clean(races1) <==> x in Clean(races2)
    ensures FilterOutcome(df, roles1, races1, special) == FilterOutcome(df, roles2, races2, special)
  {
    var q1 := Prepare(roles1, races1, special);
    var q2 := Prepare(roles2, races2, special);
    var tags := SplitTags(special);
    forall m | m in df ensures OrStage(m, q1) == OrStage(m, q2) {
      SameEntriesSameOrStage(m, q1, q2);
    }
    forall j | 0 <= j <= |tags| ensures Narrowed(df, q1, tags[..j]) == Narrowed(df, q2, tags[..j]) {
      WhereSame(df, (m: Move) => OrStage(m, q1) && CarriesAll(m, Special, tags[..j]),
                (m: Move) => OrStage(m, q2) && CarriesAll(m, Special, tags[..j]));
    }
    SelectionsAsSets(df, roles1, races1, special, roles2, races2, special);
  }

  /** As written, a repeated special tag changes the outcome: with the
      frame empty, "a,a" raises where "a" returns the empty table. */
  lemma DuplicateSpecialRaises()
    ensures FilterOutcome([], ["Tank"], [], "a,a") == KeyError
    ensures FilterOutcome([], ["Tank"], [], "a") == Table([])
  {
    SpecialTagsOfExample();
    EmptySheetOutcome(["Tank"], [], "a,a");
    EmptySheetOutcome(["Tank"], [], "a");
  }

  /** The special strings of the example: "a" holds one tag, "a,a" two. */
  lemma SpecialTagsOfExample()
    ensures |SplitTags("a")| == 1 && |SplitTags("a,a")| == 2
  {
    SplitNoSeparator("a", ',');
    CleanOne("a");
    assert "a,a" == "a" + "," + "a";
    SplitTagsAppend("a", "a");
  }

  /** On an empty sheet the source returns the empty table for at most one
      special tag and raises for two or more. */
  lemma EmptySheetOutcome(roleItems: seq<string>, raceItems: seq<string>, specialItems: string)
    ensures FilterOutcome([], roleItems, raceItems, specialItems)
            == if |SplitTags(specialItems)| >= 2 then KeyError else Table([])
  {
    var q := Prepare(roleItems, raceItems, specialItems);
    var tags := q.specialSearch;
    assert Narrowed([], q, tags[..0]) == [];
    if |tags| >= 2 {
      EmptyAt([], q, tags, 0);
    } else {
      NeverEmpty([], q, tags);
    }
  }

  /** Once some role or race is selected, one more role entry never removes a
      row: the old result is the new result filtered again. */
  lemma AddRoleWidens(df: seq<Move>, roleItems: seq<string>, raceItems: seq<string>, specialItems: string, extra: string)
    requires Clean(roleItems) != [] || Clean(raceItems) != []
    ensures Where(FilterSpec(df, roleItems + [extra], raceItems, specialItems),
                  (m: Move) => Matches(m, Prepare(roleItems, raceItems, specialItems)))
            == FilterSpec(df, roleItems, raceItems, specialItems)
    ensures |FilterSpec(df, roleItems, raceItems, specialItems)|
            <= |FilterSpec(df, roleItems + [extra], raceItems, specialItems)|
  {
    var q := Prepare(roleItems, raceItems, specialItems);
    var q' := Prepare(roleItems + [extra], raceItems, specialItems);
    CleanAppend(roleItems, [extra]);
    forall m | m in df && Matches(m, q) ensures Matches(m, q') {
      if CarriesAny(m, Roles, q.roleSearch) {
        var t :| t in q.roleSearch && HasTag(FillNa(m.roles), t);
        assert t in q'.roleSearch;
      }
    }
    WhereNarrows(df, (m: Move) => Matches(m, q), (m: Move) => Matches(m, q'));
  }

  /** The "All" sentinel with no role selected and no special tag keeps
      exactly the rows whose raw race cell is not the empty string; a cell
      of only whitespace counts as not empty. */
  lemma AllSentinelOnly(df: seq<Move>, roleItems: seq<string>, raceItems: seq<string>, specialItems: string)
    requires Clean(roleItems) == [] && SplitTags(specialItems) == []
    requires "All" in Clean(raceItems)
    requires forall k :: 0 <= k < |Clean(raceItems)| ==> Clean(raceItems)[k] == "All"
    ensures FilterSpec(df, roleItems, raceItems, specialItems)
            == Where(df, (m: Move) => FillNa(m.races) != "")
  {
    var q := Prepare(roleItems, raceItems, specialItems);
    forall m | m in df ensures Matches(m, q) == (FillNa(m.races) != "") {
      forall t | t in LiteralRaces(q.raceSearch) ensures false {
        LiteralRacesMember(q.raceSearch, t);
      }
    }
    WhereSame(df, (m: Move) => Matches(m, q), (m: Move) => FillNa(m.races) != "");
  }

  /** A row whose role and race cells are both missing passes the OR stage
      only when no role and no race is selected: cleaned entries are never
      blank, and an empty cell carries only the empty tag. */
  lemma MissingCellsMatchNothing(m: Move, roleItems: seq<string>, raceItems: seq<string>, specialItems: string)
    requires m.roles == Missing && m.races == Missing
    ensures OrStage(m, Prepare(roleItems, raceItems, specialItems))
            <==> Clean(roleItems) == [] && Clean(raceItems) == []
  {
    var q := Prepare(roleItems, raceItems, specialItems);
    forall t | t in q.roleSearch ensures !HasTag("", t) {
      HasTagEmpty(t);
    }
    forall t | t in LiteralRaces(q.raceSearch) ensures !HasTag("", t) {
      LiteralRacesMember(q.raceSearch, t);
      HasTagEmpty(t);
    }
  }

  /** Once some role or race is selected, one more race entry never removes
      a row: the old result is the new result filtered again. */
  lemma AddRaceWidens(df: seq<Move>, roleItems: seq<string>, raceItems: seq<string>, specialItems: string, extra: string)
    requires Clean(roleItems) != [] || Clean(raceItems) != []
    ensures Where(FilterSpec(df, roleItems, raceItems + [extra], specialItems),
                  (m: Move) => Matches(m, Prepare(roleItems, raceItems, specialItems)))
            == FilterSpec(df, roleItems, raceItems, specialItems)
    ensures |FilterSpec(df, roleItems, raceItems, specialItems)|
            <= |FilterSpec(df, roleItems, raceItems + [extra], specialItems)|
  {
    var q := Prepare(roleItems, raceItems, specialItems);
    var q' := Prepare(roleItems, raceItems + [extra], specialItems);
    CleanAppend(raceItems, [extra]);
    forall m | m in df && Matches(m, q) ensures Matches(m, q') {
      if "All" in q.raceSearch {
        assert "All" in q'.raceSearch;
      }
      if CarriesAny(m, Races, LiteralRaces(q.raceSearch)) {
        var t :| t in LiteralRaces(q.raceSearch) && HasTag(FillNa(m.races), t);
        LiteralRacesMember(q.raceSearch, t);
        LiteralRacesMember(q'.raceSearch, t);
      }
    }
    WhereNarrows(df, (m: Move) => Matches(m, q), (m: Move) => Matches(m, q'));
  }

  /** Two rows: one with roles "A,B" and nothing else, one with race "Elf"
      and special "Rare". */
  function ExampleTable(): seq<Move> {
    [Move(Value("A,B"), Value(""), Value(""), []), Move(Value(""), Value("Elf"), Value("Rare"), [])]
  }

  /** A filter over the example table keeps each row whose test holds. */
  lemma ExampleWhere(p: Move -> bool)
    ensures Where(ExampleTable(), p)
            == (if p(ExampleTable()[0]) then [ExampleTable()[0]] else [])
               + (if p(ExampleTable()[1]) then [ExampleTable()[1]] else [])
  {
    var t := ExampleTable();
    assert t[..1] == [t[0]];
    assert t[..1][..0] == [];
  }

  /** "All" picks the only row whose race cell is not empty. */
  lemma ExampleAll()
    ensures FilterSpec(ExampleTable(), [], ["All"], "") == [ExampleTable()[1]]
  {
    CleanOne("All");
    SplitTagsBlank("");
    AllSentinelOnly(ExampleTable(), [], ["All"], "");
    ExampleWhere((m: Move) => FillNa(m.races) != "");
  }
}
