/**
 * The syntax component as a whole: `handle` turns a matched groupmatrix
 * block and the users the auth backend returns into headers and rows,
 * and `render` writes them out as an xhtml table.
 */
module GroupMatrixTable {
  import opened PhpStrings
  import opened PhpArrays
  import opened Directive
  import opened Matrix
  import opened Rendering

  /** What `handle` returns to the renderer. */
  datatype Data = Data(headers: seq<string>, rows: seq<Record>)

  /** The configuration read from a matched block. */
  function Config(matched: string): map<string, string> {
    ConfigOf(Interior(Explode('\n', matched)))
  }

  /** A comma list of the configuration, as trimexplode splits it; a
      missing setting gives no items. */
  function List(cfg: map<string, string>, key: string): seq<string> {
    Kept(Explode(',', Setting(cfg, key)))
  }

  /** A setting the block does not configure gives no items: `attributes`
      has no default. */
  lemma MissingListEmpty(cfg: map<string, string>, key: string)
    requires key !in cfg
    ensures List(cfg, key) == []
  {
    assert Explode(',', "") == [""];
    assert Kept([""]) == [];
  }

  /** Without an `attributes` setting the headers are the group headers
      alone, and without `titles` they end with the groups. */
  lemma MissingListsHeaders(cfg: map<string, string>)
    ensures "attributes" !in cfg ==>
      Headers(List(cfg, "attributes"), List(cfg, "groups"), List(cfg, "titles"))
        == GroupHeaders(List(cfg, "groups"), List(cfg, "titles"))
    ensures "titles" !in cfg ==>
      Headers(List(cfg, "attributes"), List(cfg, "groups"), List(cfg, "titles"))
        == List(cfg, "attributes") + List(cfg, "groups")
  {
    if "attributes" !in cfg {
      MissingListEmpty(cfg, "attributes");
      assert [] + GroupHeaders(List(cfg, "groups"), List(cfg, "titles"))
             == GroupHeaders(List(cfg, "groups"), List(cfg, "titles"));
    }
    if "titles" !in cfg {
      MissingListEmpty(cfg, "titles");
    }
  }

  /** handle($match, …), with the users retrieveUsers returns, in the
      backend's order, as a parameter. */
  method Handle(matched: string, users: seq<(string, Record)>) returns (data: Data)
    requires GroupListsPresent(users, List(Config(matched), "groups"))
    ensures GroupsMissing(Config(matched)) ==> data == Data([], [])
    ensures !GroupsMissing(Config(matched)) ==>
      var cfg := Config(matched);
      && data.headers == Headers(List(cfg, "attributes"), List(cfg, "groups"), List(cfg, "titles"))
      && data.rows == RowsOf(users, List(cfg, "attributes"), List(cfg, "groups"))
    ensures users == [] ==> data.rows == []
  {
    data := Data([], []);
    var cfg := ParseConfig(matched);
    if GroupsMissing(cfg) {
      return;
    }
    var attributes := TrimExplode(',', Setting(cfg, "attributes"));
    var groups := TrimExplode(',', Setting(cfg, "groups"));
    var titles := TrimExplode(',', Setting(cfg, "titles"));
    data := data.(headers := Headers(attributes, groups, titles));
    if users == [] {
      return;
    }
    var rows := BuildRows(users, attributes, groups);
    data := data.(rows := rows);
  }

  /** The renderer whose output buffer `render` appends to. */
  class Renderer {
    var doc: string

    constructor(doc: string)
      ensures this.doc == doc
    {
      this.doc := doc;
    }
  }

  /** render($mode, $renderer, $data): only the xhtml mode is supported;
      it appends the table to the document and reports success. */
  method Render(mode: string, renderer: Renderer, data: Data) returns (ok: bool)
    modifies renderer
    ensures ok <==> mode == "xhtml"
    ensures renderer.doc == if ok then old(renderer.doc) + TableHtml(data.headers, data.rows, "") else old(renderer.doc)
  {
    if mode != "xhtml" {
      return false;
    }
    var html := RenderTable(data.headers, data.rows, "");
    renderer.doc := renderer.doc + html;
    return true;
  }

  // ---------------------------------------------------------------------
  // The cells of the rows handle builds
  // ---------------------------------------------------------------------

  /** The record holds no array under any configured attribute. */
  predicate ScalarAttributes(user: Record, attributes: seq<string>) {
    forall a :: a in attributes && Find(user, a).Some? ==> Find(user, a).value.Str?
  }

  /** With distinct attributes and groups, no attribute called 'memberof'
      and string attribute values, a row renders to |attributes| + |groups|
      cells: the attribute values in order, then the group flags in order. */
  lemma RowCells(username: string, user: Record, attributes: seq<string>, groups: seq<string>)
    requires groups != [] ==> HasGroupList(user)
    requires Distinct(attributes) && Distinct(groups) && "memberof" !in attributes
    requires ScalarAttributes(user, attributes)
    ensures var cells := Cells(RowOf(username, user, attributes, groups));
            var u := Put(user, "user", Str(username));
      && |cells| == |attributes| + |groups|
      && (forall i :: 0 <= i < |attributes| ==> Cell(u, attributes[i]) == Str(cells[i]))
      && (forall j :: 0 <= j < |groups| ==> cells[|attributes| + j] == Flag(groups[j], GroupList(user)))
  {
    RowShape(username, user, attributes, groups);
    UserCellsScalar(username, user, attributes);
    ShapedRowCells(RowOf(username, user, attributes, groups), Put(user, "user", Str(username)),
                   attributes, groups, if groups == [] then [] else GroupList(user));
  }

  /** RowCells for any row of the shape RowShape describes. */
  lemma ShapedRowCells(row: Record, u: Record, attributes: seq<string>, groups: seq<string>, grps: Record)
    requires |row| == |attributes| + (if groups == [] then 0 else 1)
    requires forall i :: 0 <= i < |attributes| ==> row[i] == (attributes[i], Cell(u, attributes[i]))
    requires forall i :: 0 <= i < |attributes| ==> Cell(u, attributes[i]).Str?
    requires groups != [] ==>
               && row[|attributes|].1.Arr?
               && |row[|attributes|].1.entries| == |groups|
               && forall j :: 0 <= j < |groups| ==>
                    row[|attributes|].1.entries[j] == (groups[j], Str(Flag(groups[j], grps)))
    ensures var cells := Cells(row);
      && |cells| == |attributes| + |groups|
      && (forall i :: 0 <= i < |attributes| ==> Cell(u, attributes[i]) == Str(cells[i]))
      && (forall j :: 0 <= j < |groups| ==> cells[|attributes| + j] == Flag(groups[j], grps))
  {
    var n := |attributes|;
    CellsOfLaidOut(row, n, |groups|);
    var cells := Cells(row);
    forall i | 0 <= i < n
      ensures Cell(u, attributes[i]) == Str(cells[i])
    {
      assert row[i].1 == Cell(u, attributes[i]);
    }
    if groups != [] {
      forall j | 0 <= j < |groups|
        ensures cells[n + j] == Flag(groups[j], grps)
      {
        assert row[n].1.entries[j].1 == Str(Flag(groups[j], grps));
      }
    }
  }

  /** The user cells of the configured attributes are strings. */
  lemma UserCellsScalar(username: string, user: Record, attributes: seq<string>)
    requires ScalarAttributes(user, attributes)
    ensures forall i :: 0 <= i < |attributes| ==> Cell(Put(user, "user", Str(username)), attributes[i]).Str?
  {
    forall i | 0 <= i < |attributes|
      ensures Cell(Put(user, "user", Str(username)), attributes[i]).Str?
    {
      FindPut(user, "user", Str(username), attributes[i]);
    }
  }

  /** n scalars, then, when m > 0, one array of m scalars: the texts of
      both, in order. */
  lemma CellsOfLaidOut(row: Record, n: nat, m: nat)
    requires |row| == n + (if m == 0 then 0 else 1)
    requires forall i :: 0 <= i < n ==> row[i].1.Str?
    requires m > 0 ==> row[n].1.Arr? && |row[n].1.entries| == m
                       && forall j :: 0 <= j < m ==> row[n].1.entries[j].1.Str?
    ensures |Cells(row)| == n + m
    ensures forall i :: 0 <= i < n ==> Cells(row)[i] == row[i].1.s
    ensures m > 0 ==> forall j :: 0 <= j < m ==> Cells(row)[n + j] == row[n].1.entries[j].1.s
  {
    var front := row[..n];
    assert AllScalar(front);
    if m == 0 {
      assert row == front;
      ScalarRowCells(row);
    } else {
      var nested := row[n].1.entries;
      assert row == front + [(row[n].0, Arr(nested))] + [];
      NestedArrayEndsRow(front, row[n].0, nested, []);
      assert AllScalar(nested);
      ScalarRowCells(nested);
    }
  }
}
