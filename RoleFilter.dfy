// The Roles sheet as the "Races & Roles" tab shows it: the `group` column,
// renamed `races`, is normalised once at load (app.py:9-10), and the table is
// filtered by the race ids picked with the selection buttons (app.py:130-136).
module RoleFilter {
  import opened PyText
  import opened Tags
  import opened Frames

  /** A row of the Roles sheet: its `races` cell and the cells the filter
      carries through unchanged. */
  datatype Role = Role(races: Cell, others: seq<Cell>)

  /** The separator the sheet uses between races. */
  const Bar: string := " | "

  /** `astype(str)`: a missing cell becomes the text "nan". */
  function AsStr(c: Cell): string {
    match c
    case Missing => "nan"
    case Value(s) => s
  }

  /** `.astype(str).str.replace(' | ', ',', regex=False)` on one cell. */
  function NormaliseRaces(c: Cell): (r: Cell)
    ensures r.Value? && !Occurs(r.text, Bar)
  {
    BarsReplaced(AsStr(c));
    Value(Replace(AsStr(c), Bar, ","))
  }

  /** The Roles table after the normalisation of its `races` column. */
  function LoadRoles(roles: seq<Role>): (r: seq<Role>)
    ensures |r| == |roles|
  {
    seq(|roles|, i requires 0 <= i < |roles| => roles[i].(races := NormaliseRaces(roles[i].races)))
  }

  /** Replacing with a comma never leaves a " | " behind: the comma cannot
      start or complete one, and every occurrence the left-to-right scan
      passes over would have been replaced. */
  lemma {:induction false} BarsReplaced(s: string)
    ensures !Occurs(Replace(s, Bar, ","), Bar)
    decreases |s|
  {
    var r := Replace(s, Bar, ",");
    if |s| < 3 {
    } else if s[..3] == Bar {
      var tail := Replace(s[3..], Bar, ",");
      BarsReplaced(s[3..]);
      assert r == [','] + tail;
      assert r[1..] == tail;
      forall i | 0 <= i <= |r| - 3 ensures !OccursAt(r, Bar, i) {
        if i > 0 {
          OccursShift(r, Bar, i - 1);
        } else {
          assert r[..3][0] != Bar[0];
        }
      }
    } else {
      var t := s[1..];
      var tail := Replace(t, Bar, ",");
      BarsReplaced(t);
      assert r[1..] == tail;
      forall i | 0 <= i <= |r| - 3 ensures !OccursAt(r, Bar, i) {
        if i > 0 {
          OccursShift(r, Bar, i - 1);
        } else {
          ReplaceFirst(t);
          if !(|t| >= 3 && t[..3] == Bar) {
            ReplaceNoMatchHead(t);
            ReplaceFirst(t[1..]);
          }
        }
      }
    }
  }

  /** The first character of a replaced string: the comma when the
      separator starts the string, the string's own first character else. */
  lemma ReplaceFirst(t: string)
    requires t != []
    ensures Replace(t, Bar, ",") != []
    ensures Replace(t, Bar, ",")[0] == if |t| >= 3 && t[..3] == Bar then ',' else t[0]
  {
  }

  /** Where no separator starts, the scan keeps the first character. */
  lemma ReplaceNoMatchHead(t: string)
    requires t != [] && !(|t| >= 3 && t[..3] == Bar)
    ensures Replace(t, Bar, ",") == [t[0]] + Replace(t[1..], Bar, ",")
  {
  }

  /** A cell is left as it is exactly when it holds no separator. */
  lemma NormaliseUnchanged(s: string)
    ensures NormaliseRaces(Value(s)) == Value(s) <==> !Occurs(s, Bar)
  {
    ReplaceUnchangedIff(s, Bar, ",");
  }

  /** The first separator of a cell becomes a comma. */
  lemma {:induction false} ReplaceAtFirstBar(a: string, b: string)
    requires '|' !in a
    ensures Replace(a + Bar + b, Bar, ",") == a + "," + Replace(b, Bar, ",")
    decreases |a|
  {
    var s := a + Bar + b;
    if a == [] {
      assert s == Bar + b;
      assert s[..3] == Bar && s[3..] == b;
    } else {
      assert s[1] == (if |a| >= 2 then a[1] else ' ');
      assert s[1..] == a[1..] + Bar + b;
      ReplaceAtFirstBar(a[1..], b);
      assert a == [a[0]] + a[1..];
    }
  }

  /** After normalisation a cell `a | b` carries the tags of `a` and the tags
      of `b`, so a multi-race cell matches each of its races. */
  lemma SeparatedRaces(a: string, b: string, tag: string)
    requires '|' !in a
    ensures HasTag(NormaliseRaces(Value(a + Bar + b)).text, tag)
            <==> HasTag(a, tag) || HasTag(NormaliseRaces(Value(b)).text, tag)
  {
    ReplaceAtFirstBar(a, b);
    HasTagConcat(a, Replace(b, Bar, ","), tag);
  }

  /** The row is offered to one of the selected races, or to every race. */
  predicate Offered(r: Role, selected: seq<string>) {
    exists id :: id in selected + ["any"] && HasTag(FillNa(r.races), Strip(id))
  }

  /** The Roles tab table: unchanged when no race is selected, otherwise the
      rows whose race tokens hold a stripped selected id or "any". */
  function RolesForRaces(roles: seq<Role>, selected: seq<string>): (r: seq<Role>)
    ensures |r| <= |roles|
  {
    if selected == [] then roles
    else Where(roles, (r: Role) => Offered(r, selected))
  }

  /** With races selected, a row is shown exactly when it is a row of the
      table offered to a selected race or to "any". */
  lemma RolesForRacesMember(roles: seq<Role>, selected: seq<string>, r: Role)
    requires selected != []
    ensures r in RolesForRaces(roles, selected) <==> r in roles && Offered(r, selected)
  {
    WhereMember(roles, (x: Role) => Offered(x, selected), r);
  }

  /** The shown rows keep their order in the Roles table. */
  lemma RolesForRacesOrder(roles: seq<Role>, selected: seq<string>) returns (pos: seq<nat>)
    ensures |pos| == |RolesForRaces(roles, selected)|
    ensures forall k :: 0 <= k < |pos| ==> pos[k] < |roles| && RolesForRaces(roles, selected)[k] == roles[pos[k]]
    ensures forall k, l :: 0 <= k < l < |pos| ==> pos[k] < pos[l]
    ensures forall i :: 0 <= i < |roles| ==> (i in pos <==> selected == [] || Offered(roles[i], selected))
  {
    if selected == [] {
      pos := seq(|roles|, i requires 0 <= i < |roles| => i);
      forall i | 0 <= i < |roles| ensures i in pos {
        assert pos[i] == i;
      }
    } else {
      pos := WherePositions(roles, (x: Role) => Offered(x, selected));
    }
  }

  /** A row offered to "any" is shown whatever races are selected. */
  lemma AnyRowsAlwaysShown(roles: seq<Role>, selected: seq<string>, i: nat)
    requires i < |roles| && HasTag(FillNa(roles[i].races), "any")
    ensures roles[i] in RolesForRaces(roles, selected)
  {
    if selected != [] {
      assert Trimmed("any");
      StripTrimmed("any");
      assert "any" in selected + ["any"];
      RolesForRacesMember(roles, selected, roles[i]);
    }
  }

  /** A selected id of only whitespace strips to "" and so shows every row
      with an empty race token, where `filter_df` would have dropped it. */
  lemma BlankIdShowsEmptyTokens(roles: seq<Role>, selected: seq<string>, k: nat, i: nat)
    requires k < |selected| && AllSpace(selected[k])
    requires i < |roles| && "" in Tokens(FillNa(roles[i].races))
    ensures roles[i] in RolesForRaces(roles, selected)
    ensures Clean([selected[k]]) == []
  {
    StripBlank(selected[k]);
    assert selected[k] in selected + ["any"];
    RolesForRacesMember(roles, selected, roles[i]);
  }
}
