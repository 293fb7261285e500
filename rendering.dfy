/**
 * The xhtml table: renderTable writes the header row and one table row per
 * data row, and renderTableCells wraps every scalar item of a row in a cell,
 * descending into the first nested array it meets. Nothing is escaped.
 */
module Rendering {
  import opened PhpArrays

  // ---------------------------------------------------------------------
  // renderTableCells
  // ---------------------------------------------------------------------

  /** The number of values in a value, counting nested ones; it shrinks on
      every descent of renderTableCells. */
  function Size(v: Value): nat
    decreases v, 1
  {
    match v
    case Str(_) => 1
    case Arr(e) => 1 + SizeFrom(v, 0)
  }

  /** The sizes of the entries of an array from index `from` on. */
  function SizeFrom(v: Value, from: nat): nat
    requires v.Arr? && from <= |v.entries|
    decreases v, 0, |v.entries| - from
  {
    if from == |v.entries| then 0 else Size(v.entries[from].1) + SizeFrom(v, from + 1)
  }

  function EntriesSize(entries: seq<(string, Value)>): nat {
    SizeFrom(Arr(entries), 0)
  }

  lemma {:induction false} SizeFromSuffix(entries: seq<(string, Value)>, from: nat)
    requires from <= |entries|
    ensures SizeFrom(Arr(entries), from) == EntriesSize(entries[from..])
    decreases |entries| - from
  {
    if from < |entries| {
      SizeFromSuffix(entries, from + 1);
      SizeFromShift(entries[from..], 1);
      assert entries[from..][1..] == entries[from + 1..];
    } else {
      assert entries[from..] == [];
    }
  }

  lemma {:induction false} SizeFromShift(entries: seq<(string, Value)>, from: nat)
    requires 1 <= from <= |entries|
    ensures SizeFrom(Arr(entries), from) == SizeFrom(Arr(entries[1..]), from - 1)
    decreases |entries| - from
  {
    if from < |entries| {
      SizeFromShift(entries, from + 1);
    }
  }

  /** Dropping the first entry, or descending into an array entry, makes the
      row smaller. */
  lemma EntriesSizeHead(entries: seq<(string, Value)>)
    requires entries != []
    ensures EntriesSize(entries) == Size(entries[0].1) + EntriesSize(entries[1..])
  {
    SizeFromSuffix(entries, 1);
  }

  lemma {:induction false} EntriesSizeAt(entries: seq<(string, Value)>, i: nat)
    requires i < |entries|
    ensures Size(entries[i].1) <= EntriesSize(entries)
    ensures entries[i].1.Arr? ==> EntriesSize(entries[i].1.entries) < EntriesSize(entries)
  {
    EntriesSizeHead(entries);
    if i > 0 {
      EntriesSizeAt(entries[1..], i - 1);
    }
  }

  function Td(text: string): string {
    "<td>" + text + "</td>"
  }

  /** The cells of the given texts, in order. */
  function Tds(texts: seq<string>): string {
    if texts == [] then "" else Td(texts[0]) + Tds(texts[1..])
  }

  /** renderTableCells($row, $html): every scalar item appended as a cell;
      at the first nested array the result is that array's rendering, so
      the items after it are never reached. */
  function RenderTableCells(row: seq<(string, Value)>, html: string): string
    decreases EntriesSize(row)
  {
    if row == [] then html
    else
      EntriesSizeAt(row, 0);
      EntriesSizeHead(row);
      match row[0].1
      case Str(s) => RenderTableCells(row[1..], html + Td(s))
      case Arr(e) => RenderTableCells(e, html)
  }

  /** The index of the first nested array in row, or |row| if none. */
  function FirstNested(row: seq<(string, Value)>): (k: nat)
    ensures k <= |row|
    ensures forall i :: 0 <= i < k ==> row[i].1.Str?
    ensures k < |row| ==> row[k].1.Arr?
  {
    if row == [] || row[0].1.Arr? then 0 else 1 + FirstNested(row[1..])
  }

  predicate AllScalar(row: seq<(string, Value)>) {
    forall i :: 0 <= i < |row| ==> row[i].1.Str?
  }

  /** The texts of a row of scalars. */
  function Texts(row: seq<(string, Value)>): (texts: seq<string>)
    requires AllScalar(row)
    ensures |texts| == |row|
    ensures forall i :: 0 <= i < |row| ==> texts[i] == row[i].1.s
  {
    if row == [] then [] else [row[0].1.s] + Texts(row[1..])
  }

  /** The texts that become cells, by position: the scalars before the first
      nested array, then the cells of that array; nothing after it. */
  function Cells(row: seq<(string, Value)>): seq<string>
    decreases EntriesSize(row)
  {
    var k := FirstNested(row);
    if k == |row| then Texts(row)
    else
      EntriesSizeAt(row, k);
      Texts(row[..k]) + Cells(row[k].1.entries)
  }

  lemma {:induction false} TdsAppend(a: seq<string>, b: seq<string>)
    ensures Tds(a + b) == Tds(a) + Tds(b)
  {
    if a != [] {
      assert (a + b)[1..] == a[1..] + b;
      TdsAppend(a[1..], b);
    } else {
      assert a + b == b;
    }
  }

  /** renderTableCells appends exactly the cells of Cells(row) to html. */
  lemma {:induction false} RenderTableCellsAppendsCells(row: seq<(string, Value)>, html: string)
    ensures RenderTableCells(row, html) == html + Tds(Cells(row))
    decreases EntriesSize(row)
  {
    if row != [] {
      EntriesSizeAt(row, 0);
      EntriesSizeHead(row);
      match row[0].1
      case Str(s) =>
        RenderTableCellsAppendsCells(row[1..], html + Td(s));
        CellsOfScalarHead(row);
      case Arr(e) =>
        RenderTableCellsAppendsCells(e, html);
        assert FirstNested(row) == 0;
        assert row[..0] == [];
        assert Texts(row[..0]) == [];
        assert Cells(row) == Texts(row[..0]) + Cells(e);
        assert Cells(row) == Cells(e);
        assert RenderTableCells(row, html) == RenderTableCells(e, html);
    }
  }

  /** A scalar first item gives the first cell; the rest come from the
      other items. */
  lemma {:induction false} CellsOfScalarHead(row: seq<(string, Value)>)
    requires row != [] && row[0].1.Str?
    ensures Cells(row) == [row[0].1.s] + Cells(row[1..])
    ensures Tds(Cells(row)) == Td(row[0].1.s) + Tds(Cells(row[1..]))
  {
    var x, tail := row[0].1.s, row[1..];
    var k := FirstNested(row);
    assert k == 1 + FirstNested(tail);
    if k == |row| {
      assert Cells(row) == Texts(row);
      assert Cells(tail) == Texts(tail);
    } else {
      NestedAfterScalarHead(row, k);
    }
    TdsCons(x, Cells(tail));
  }

  /** CellsOfScalarHead when the row holds a nested array at k > 0. */
  lemma NestedAfterScalarHead(row: seq<(string, Value)>, k: nat)
    requires 0 < k < |row| && k == FirstNested(row) && k - 1 == FirstNested(row[1..])
    ensures Cells(row) == [row[0].1.s] + Cells(row[1..])
  {
    var tail := row[1..];
    NestedSlices(row, k);
    CellsAtNested(row, k);
    CellsAtNested(tail, k - 1);
    TextsCons(row[..k], tail[..k - 1]);
    ConsJoin(Cells(row), Cells(tail), row[0].1.s, Texts(tail[..k - 1]), Cells(row[k].1.entries));
  }

  /** The slices NestedAfterScalarHead relates. */
  lemma NestedSlices(row: seq<(string, Value)>, k: nat)
    requires 0 < k < |row|
    ensures row[..k][1..] == row[1..][..k - 1]
    ensures row[..k][0] == row[0] && row[1..][k - 1] == row[k]
  {
  }

  /** Regrouping a first text, a front and a nested part. */
  lemma ConsJoin(whole: seq<string>, tail: seq<string>, x: string, head: seq<string>, inner: seq<string>)
    requires whole == [x] + head + inner && tail == head + inner
    ensures whole == [x] + tail
  {
  }

  /** One unfolding of Cells at its first nested array. */
  lemma CellsAtNested(row: seq<(string, Value)>, k: nat)
    requires k == FirstNested(row) && k < |row|
    ensures AllScalar(row[..k])
    ensures Cells(row) == Texts(row[..k]) + Cells(row[k].1.entries)
  {
  }

  /** One unfolding of Texts. */
  lemma TextsCons(front: seq<(string, Value)>, rest: seq<(string, Value)>)
    requires front != [] && AllScalar(front) && front[1..] == rest
    ensures AllScalar(rest)
    ensures Texts(front) == [front[0].1.s] + Texts(rest)
  {
  }

  /** One unfolding of Tds. */
  lemma TdsCons(x: string, texts: seq<string>)
    ensures Tds([x] + texts) == Td(x) + Tds(texts)
  {
    assert ([x] + texts)[1..] == texts;
  }

  /** A row of scalars only: one cell per item, in order. */
  lemma ScalarRowCells(row: seq<(string, Value)>)
    requires AllScalar(row)
    ensures Cells(row) == Texts(row)
  {
  }

  /** A nested array ends the row: Cells stops there whatever follows. */
  lemma {:induction false} NestedArrayEndsRow(front: seq<(string, Value)>, key: string, nested: seq<(string, Value)>, back: seq<(string, Value)>)
    requires AllScalar(front)
    ensures Cells(front + [(key, Arr(nested))] + back) == Texts(front) + Cells(nested)
  {
    var row := front + [(key, Arr(nested))] + back;
    FirstNestedAfterScalars(front, row);
    assert row[..|front|] == front;
    assert row[|front|] == (key, Arr(nested));
  }

  lemma {:induction false} FirstNestedAfterScalars(front: seq<(string, Value)>, row: seq<(string, Value)>)
    requires AllScalar(front) && |front| < |row| && row[..|front|] == front && row[|front|].1.Arr?
    ensures FirstNested(row) == |front|
  {
    if front != [] {
      assert row[1..][..|front| - 1] == front[1..];
      FirstNestedAfterScalars(front[1..], row[1..]);
    }
  }

  // ---------------------------------------------------------------------
  // renderTable
  // ---------------------------------------------------------------------

  /** What follows "<table": `$className ?` is PHP truthiness, so "0"
      gives no class attribute either. */
  function TableClass(className: string): string {
    if StrTruthy(className) then " class=\"" + className + "\">" else ">"
  }

  function Th(header: string): string {
    "<th>" + header + "</th>"
  }

  /** The header cells, one per header, in order. */
  function Ths(headers: seq<string>): string {
    if headers == [] then ""
    else Ths(headers[..|headers| - 1]) + Th(headers[|headers| - 1])
  }

  function Tr(row: seq<(string, Value)>): string {
    "<tr>" + RenderTableCells(row, "") + "</tr>"
  }

  /** One table row per data row, in order. */
  function Trs(rows: seq<seq<(string, Value)>>): string {
    if rows == [] then ""
    else Trs(rows[..|rows| - 1]) + Tr(rows[|rows| - 1])
  }

  /** The whole table renderTable builds. */
  function TableHtml(headers: seq<string>, rows: seq<seq<(string, Value)>>, className: string): string {
    "<table" + TableClass(className) + "<thead>" + "<tr>" + Ths(headers) + "</tr>" + "</thead>"
      + "<tbody>" + Trs(rows) + "</tbody>" + "</table>"
  }

  lemma ThsSnoc(headers: seq<string>, i: nat)
    requires i < |headers|
    ensures Ths(headers[..i + 1]) == Ths(headers[..i]) + ("<th>" + headers[i] + "</th>")
  {
    assert headers[..i + 1][..i] == headers[..i];
  }

  lemma TrsSnoc(rows: seq<seq<(string, Value)>>, j: nat)
    requires j < |rows|
    ensures Trs(rows[..j + 1]) == Trs(rows[..j]) + Tr(rows[j])
  {
    assert rows[..j + 1][..j] == rows[..j];
  }

  /** Concatenation is associative; RenderTable's loops regroup their
      appends with it. */
  lemma Assoc(a: string, b: string, c: string)
    ensures (a + b) + c == a + (b + c)
  {
  }

  /** renderTable($headers, $rows, $className) */
  method RenderTable(headers: seq<string>, rows: seq<seq<(string, Value)>>, className: string)
    returns (html: string)
    ensures html == TableHtml(headers, rows, className)
  {
    html := "<table";
    html := html + (if StrTruthy(className) then " class=\"" + className + "\">" else ">");
    html := html + "<thead>";
    html := html + "<tr>";
    ghost var open := html;
    var i := 0;
    while i < |headers|
      invariant 0 <= i <= |headers|
      invariant html == open + Ths(headers[..i])
    {
      ThsSnoc(headers, i);
      Assoc(open, Ths(headers[..i]), "<th>" + headers[i] + "</th>");
      html := html + ("<th>" + headers[i] + "</th>");
      i := i + 1;
    }
    assert headers[..i] == headers;
    html := html + "</tr>";
    html := html + "</thead>";
    html := html + "<tbody>";
    ghost var head := html;
    if |rows| > 0 {
      var j := 0;
      while j < |rows|
        invariant 0 <= j <= |rows|
        invariant html == head + Trs(rows[..j])
      {
        TrsSnoc(rows, j);
        ghost var done, cells := Trs(rows[..j]), RenderTableCells(rows[j], "");
        Assoc(head + done, "<tr>", cells);
        Assoc(head + done, "<tr>" + cells, "</tr>");
        Assoc(head, done, "<tr>" + cells + "</tr>");
        html := html + "<tr>";
        html := html + RenderTableCells(rows[j], "");
        html := html + "</tr>";
        j := j + 1;
      }
      assert rows[..j] == rows;
    }
    html := html + "</tbody>";
    html := html + "</table>";
  }

  lemma {:induction false} ThsAppend(a: seq<string>, b: seq<string>)
    ensures Ths(a + b) == Ths(a) + Ths(b)
  {
    if b != [] {
      var b' := b[..|b| - 1];
      assert (a + b)[..|a + b| - 1] == a + b';
      ThsAppend(a, b');
    } else {
      assert a + b == a;
    }
  }

  lemma {:induction false} TrsAppend(a: seq<seq<(string, Value)>>, b: seq<seq<(string, Value)>>)
    ensures Trs(a + b) == Trs(a) + Trs(b)
  {
    if b != [] {
      var b' := b[..|b| - 1];
      assert (a + b)[..|a + b| - 1] == a + b';
      TrsAppend(a, b');
    } else {
      assert a + b == a;
    }
  }

  /** One header is one header cell, and one row is one table row of its
      cells; with ThsAppend and TrsAppend this fixes the order of both. */
  lemma ThsTrsOne(header: string, row: seq<(string, Value)>)
    ensures Ths([header]) == "<th>" + header + "</th>"
    ensures Trs([row]) == "<tr>" + Tds(Cells(row)) + "</tr>"
  {
    assert [header][..0] == [];
    assert [row][..0] == [];
    RenderTableCellsAppendsCells(row, "");
  }
}
