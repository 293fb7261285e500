/**
 * Row building in `handle`: every user record the auth backend returns,
 * keyed by username, becomes one row holding the configured attribute
 * values and then a `memberof` array with one 'x' or '' flag per configured
 * group.
 */
module Matrix {
  import opened PhpArrays

  /** A user record from the backend, or a row: a PHP array. */
  type Record = seq<(string, Value)>

  /** `$user[$attribute] ?: ''`: a missing or falsy value becomes ''. */
  function Cell(user: Record, attribute: string): Value {
    match Find(user, attribute)
    case None => Str("")
    case Some(v) => if Truthy(v) then v else Str("")
  }

  /** `in_array($group, $grps)`, comparing strings as strings: some entry of
      the list is the string needle. */
  predicate InArray(needle: string, haystack: Record) {
    exists i :: 0 <= i < |haystack| && haystack[i].1 == Str(needle)
  }

  /** The flag of one group: 'x' for a member, '' otherwise. */
  function Flag(group: string, grps: Record): string {
    if InArray(group, grps) then "x" else ""
  }

  /** The backend's records carry their groups as an array under 'grps'. */
  predicate HasGroupList(user: Record) {
    Find(user, "grps").Some? && Find(user, "grps").value.Arr?
  }

  function GroupList(user: Record): Record
    requires HasGroupList(user)
  {
    Find(user, "grps").value.entries
  }

  /** The row after the foreach over the attributes: each attribute
      assigned in turn. */
  function AttributeCells(user: Record, attributes: seq<string>): Record {
    PutEach([], attributes, CellOf(user))
  }

  function CellOf(user: Record): string -> Value {
    a => Cell(user, a)
  }

  lemma AttributeCellsSnoc(user: Record, attributes: seq<string>, i: nat)
    requires i < |attributes|
    ensures AttributeCells(user, attributes[..i + 1])
            == Put(AttributeCells(user, attributes[..i]), attributes[i], Cell(user, attributes[i]))
  {
    assert attributes[..i + 1][..i] == attributes[..i];
  }

  /** The `memberof` array after the foreach over the groups, starting from
      what it held before. */
  function Flags(base: Record, grps: Record, groups: seq<string>): Record {
    PutEach(base, groups, FlagOf(grps))
  }

  function FlagOf(grps: Record): string -> Value {
    g => Str(Flag(g, grps))
  }

  /** What `$row['memberof'][$group] = …` writes into the first time: the
      array already under 'memberof' if there is one, otherwise a new one. */
  function MemberOfBase(row: Record): Record {
    var current := Find(row, "memberof");
    if current.Some? && current.value.Arr? then current.value.entries else []
  }

  /** The row after the foreach over the groups. */
  function WithFlags(row: Record, grps: Record, groups: seq<string>): Record {
    if groups == [] then row
    else Put(row, "memberof", Arr(Flags(MemberOfBase(row), grps, groups)))
  }

  /** One more group: the flag is written into the `memberof` array the row
      holds so far. */
  lemma WithFlagsStep(row: Record, grps: Record, groups: seq<string>, j: nat)
    requires j < |groups|
    ensures var before := WithFlags(row, grps, groups[..j]);
            var g := groups[j];
            WithFlags(row, grps, groups[..j + 1]) == Put(before, "memberof", Arr(Put(MemberOfBase(before), g, Str(Flag(g, grps)))))
  {
    var init := groups[..j];
    var g := groups[j];
    assert groups[..j + 1][..j] == init;
    assert groups[..j + 1][j] == g;
    assert Flags(MemberOfBase(row), grps, groups[..j + 1]) == Put(Flags(MemberOfBase(row), grps, init), g, Str(Flag(g, grps)));
    if init != [] {
      var f := Flags(MemberOfBase(row), grps, init);
      FindPut(row, "memberof", Arr(f), "memberof");
      PutPut(row, "memberof", Arr(f), Arr(Flags(MemberOfBase(row), grps, groups[..j + 1])));
    }
  }

  /** The row the array_map closure returns for one user. */
  function RowOf(username: string, user: Record, attributes: seq<string>, groups: seq<string>): Record
    requires groups != [] ==> HasGroupList(user)
  {
    var u := Put(user, "user", Str(username));
    FindPut(user, "user", Str(username), "grps");
    WithFlags(AttributeCells(u, attributes), if groups == [] then [] else GroupList(u), groups)
  }

  /** The array_map closure of `handle`. */
  method BuildRow(username: string, user: Record, attributes: seq<string>, groups: seq<string>)
    returns (row: Record)
    requires groups != [] ==> HasGroupList(user)
    ensures row == RowOf(username, user, attributes, groups)
  {
    var u := Put(user, "user", Str(username));
    FindPut(user, "user", Str(username), "grps");
    row := [];
    assert attributes[..0] == [];
    var i := 0;
    while i < |attributes|
      invariant 0 <= i <= |attributes|
      invariant row == AttributeCells(u, attributes[..i])
    {
      var attribute := attributes[i];
      AttributeCellsSnoc(u, attributes, i);
      row := Put(row, attribute, Cell(u, attribute));
      i := i + 1;
    }
    assert attributes[..i] == attributes;
    ghost var cells := row;
    ghost var grps := if groups == [] then [] else GroupList(u);
    assert groups[..0] == [];
    assert WithFlags(cells, grps, groups[..0]) == cells;
    var j := 0;
    while j < |groups|
      invariant 0 <= j <= |groups|
      invariant row == WithFlags(cells, grps, groups[..j])
    {
      var group := groups[j];
      WithFlagsStep(cells, grps, groups, j);
      assert grps == GroupList(u);
      var flag := if InArray(group, GroupList(u)) then "x" else "";
      assert flag == Flag(group, grps);
      var memberof := MemberOfBase(row);
      memberof := Put(memberof, group, Str(flag));
      row := Put(row, "memberof", Arr(memberof));
      j := j + 1;
    }
    assert groups[..j] == groups;
  }

  /** Every record carries its 'grps' list, as the backend promises, or no
      group is configured and the list is never read. */
  predicate GroupListsPresent(users: seq<(string, Record)>, groups: seq<string>) {
    groups != [] ==> forall i :: 0 <= i < |users| ==> HasGroupList(users[i].1)
  }

  /** The rows array_map produces: the closure applied to each entry. */
  function RowsOf(users: seq<(string, Record)>, attributes: seq<string>, groups: seq<string>): (rows: seq<Record>)
    requires GroupListsPresent(users, groups)
    ensures |rows| == |users|
  {
    if users == [] then []
    else
      var last := users[|users| - 1];
      RowsOf(users[..|users| - 1], attributes, groups) + [RowOf(last.0, last.1, attributes, groups)]
  }

  /** One row per user, in the backend's order. */
  lemma {:induction false} RowsOfAt(users: seq<(string, Record)>, attributes: seq<string>, groups: seq<string>, i: nat)
    requires GroupListsPresent(users, groups)
    requires i < |users|
    ensures RowsOf(users, attributes, groups)[i] == RowOf(users[i].0, users[i].1, attributes, groups)
  {
    if i < |users| - 1 {
      RowsOfAt(users[..|users| - 1], attributes, groups, i);
    }
  }

  lemma RowsOfSnoc(users: seq<(string, Record)>, attributes: seq<string>, groups: seq<string>, i: nat)
    requires GroupListsPresent(users, groups)
    requires i < |users|
    ensures GroupListsPresent(users[..i], groups) && GroupListsPresent(users[..i + 1], groups)
    ensures RowsOf(users[..i + 1], attributes, groups)
            == RowsOf(users[..i], attributes, groups) + [RowOf(users[i].0, users[i].1, attributes, groups)]
  {
    assert users[..i + 1][..i] == users[..i];
  }

  /** array_map over the backend's users. */
  method BuildRows(users: seq<(string, Record)>, attributes: seq<string>, groups: seq<string>)
    returns (rows: seq<Record>)
    requires GroupListsPresent(users, groups)
    ensures rows == RowsOf(users, attributes, groups)
  {
    rows := [];
    var i := 0;
    while i < |users|
      invariant 0 <= i <= |users|
      invariant rows == RowsOf(users[..i], attributes, groups)
    {
      var row := BuildRow(users[i].0, users[i].1, attributes, groups);
      RowsOfSnoc(users, attributes, groups, i);
      rows := rows + [row];
      i := i + 1;
    }
    assert users[..i] == users;
  }

  // ---------------------------------------------------------------------
  // What a row holds
  // ---------------------------------------------------------------------

  /** The 'user' attribute is always the key the backend gave the record,
      whatever the record itself says; a falsy username ("" or "0") shows
      as ''. */
  lemma RowUser(username: string, user: Record, attributes: seq<string>, groups: seq<string>)
    requires groups != [] ==> HasGroupList(user)
    requires "user" in attributes
    ensures Find(RowOf(username, user, attributes, groups), "user")
            == Some(Str(if StrTruthy(username) then username else ""))
  {
    var u := Put(user, "user", Str(username));
    FindPutEach([], attributes, CellOf(u), "user");
    FindPut(user, "user", Str(username), "user");
    FindPut(user, "user", Str(username), "grps");
    if groups != [] {
      var cells := AttributeCells(u, attributes);
      FindPut(cells, "memberof", Arr(Flags(MemberOfBase(cells), GroupList(u), groups)), "user");
    }
  }

  /** Every other configured attribute is the record's value, or '' when
      the record lacks it or holds a falsy value. */
  lemma RowAttribute(username: string, user: Record, attributes: seq<string>, groups: seq<string>, a: string)
    requires groups != [] ==> HasGroupList(user)
    requires a in attributes && a != "user" && (a != "memberof" || groups == [])
    ensures Find(RowOf(username, user, attributes, groups), a) == Some(Cell(user, a))
  {
    var u := Put(user, "user", Str(username));
    FindPutEach([], attributes, CellOf(u), a);
    FindPut(user, "user", Str(username), a);
    FindPut(user, "user", Str(username), "grps");
    if groups != [] {
      var cells := AttributeCells(u, attributes);
      FindPut(cells, "memberof", Arr(Flags(MemberOfBase(cells), GroupList(u), groups)), a);
    }
  }

  /** A row's keys are the configured attributes, once each in first-use
      order, then 'memberof' when there are groups. */
  lemma RowKeys(username: string, user: Record, attributes: seq<string>, groups: seq<string>)
    requires groups != [] ==> HasGroupList(user)
    ensures Keys(RowOf(username, user, attributes, groups))
            == Dedup(attributes) + (if groups != [] && "memberof" !in attributes then ["memberof"] else [])
  {
    var u := Put(user, "user", Str(username));
    KeysPutEach(attributes, CellOf(u));
    FindPut(user, "user", Str(username), "grps");
    if groups != [] {
      var cells := AttributeCells(u, attributes);
      KeysPut(cells, "memberof", Arr(Flags(MemberOfBase(cells), GroupList(u), groups)));
    }
  }

  /** The `memberof` array has one entry per configured group, in the order
      of the groups, and the entry is 'x' exactly when the group is in the
      user's 'grps' list. */
  lemma RowFlags(username: string, user: Record, attributes: seq<string>, groups: seq<string>)
    requires groups != [] && HasGroupList(user)
    requires "memberof" !in attributes
    ensures var flags := Flags([], GroupList(user), groups);
      && Find(RowOf(username, user, attributes, groups), "memberof") == Some(Arr(flags))
      && Keys(flags) == Dedup(groups)
      && forall g :: g in groups ==>
           Find(flags, g) == Some(Str(if InArray(g, GroupList(user)) then "x" else ""))
  {
    var u := Put(user, "user", Str(username));
    FindPut(user, "user", Str(username), "grps");
    var cells := AttributeCells(u, attributes);
    FindPutEach([], attributes, CellOf(u), "memberof");
    var flags := Flags([], GroupList(user), groups);
    FindPut(cells, "memberof", Arr(flags), "memberof");
    KeysPutEach(groups, FlagOf(GroupList(user)));
    forall g | g in groups
      ensures Find(flags, g) == Some(Str(if InArray(g, GroupList(user)) then "x" else ""))
    {
      FindPutEach([], groups, FlagOf(GroupList(user)), g);
    }
  }

  /** Without an attribute called 'memberof', the flags come after the
      attribute cells as one new entry. */
  lemma RowOfLayout(username: string, user: Record, attributes: seq<string>, groups: seq<string>)
    requires groups != [] && HasGroupList(user)
    requires "memberof" !in attributes
    ensures RowOf(username, user, attributes, groups)
            == AttributeCells(Put(user, "user", Str(username)), attributes)
               + [("memberof", Arr(Flags([], GroupList(user), groups)))]
  {
    var u := Put(user, "user", Str(username));
    FindPut(user, "user", Str(username), "grps");
    KeysPutEach(attributes, CellOf(u));
    FindPutEach([], attributes, CellOf(u), "memberof");
    var cells := AttributeCells(u, attributes);
    assert MemberOfBase(cells) == [];
    KeysPut(cells, "memberof", Arr(Flags([], GroupList(user), groups)));
  }

  /** With distinct attributes and groups, a row is exactly the attribute
      cells in configured order followed by the `memberof` array of one
      flag per group in configured order. */
  lemma RowShape(username: string, user: Record, attributes: seq<string>, groups: seq<string>)
    requires groups != [] ==> HasGroupList(user)
    requires Distinct(attributes) && Distinct(groups) && "memberof" !in attributes
    ensures var row := RowOf(username, user, attributes, groups);
            var u := Put(user, "user", Str(username));
      && |row| == |attributes| + (if groups == [] then 0 else 1)
      && (forall i :: 0 <= i < |attributes| ==> row[i] == (attributes[i], Cell(u, attributes[i])))
      && (groups != [] ==>
            && row[|attributes|].0 == "memberof"
            && row[|attributes|].1.Arr?
            && |row[|attributes|].1.entries| == |groups|
            && forall j :: 0 <= j < |groups| ==>
                 row[|attributes|].1.entries[j] == (groups[j], Str(Flag(groups[j], GroupList(user)))))
  {
    var u := Put(user, "user", Str(username));
    PutEachDistinct(attributes, CellOf(u));
    if groups != [] {
      RowOfLayout(username, user, attributes, groups);
      PutEachDistinct(groups, FlagOf(GroupList(user)));
    }
  }
}
