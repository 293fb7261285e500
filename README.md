# groupmatrix table syntax, modelled in Dafny

The DokuWiki plugin groupmatrix adds one block syntax. It shows which wiki
users belong to which groups as an HTML table. A block looks like

```
---- groupmatrix ----
groups: admin, editor
attributes: user, name
titles: Admins
----
```

`handle` (in `syntax/table.php`) reads such a block in five steps:

1. It cuts the block into lines and drops the opening and closing markers.
2. It reads every other line as a `key: value` setting.
3. It splits the comma lists `attributes`, `groups` and `titles` with
   `trimexplode`.
4. It builds the header row: the attributes, then the group names, with the
   titles written over the group names.
5. It turns every user record the auth backend returns into one row. A row
   holds the configured attribute values, then a `memberof` array with an
   `x` or `''` flag for each configured group.

`render` writes the headers and rows out as a table with `renderTable`.
`renderTableCells` puts every scalar item of a row into a `<td>`, and
descends into the first nested array it meets.

The model lives in six modules:

- `PhpStrings` (`php_strings.dfy`): PHP's `trim`, `explode` and `implode`,
  for the one-character delimiters the plugin uses.
- `PhpArrays` (`php_arrays.dfy`): PHP values and ordered arrays.
  - An array is a sequence of key/value pairs.
  - `$a[$k]` is `Find`.
  - `$a[$k] = $v` is `Put`: it replaces the value in place, or appends a
    new entry.
  - A `foreach` of assignments is `PutEach`.
  - PHP truthiness is explicit: only `""` and `"0"` are falsy strings, and
    an array is falsy only when empty.
- `Directive` (`directive.dfy`): lines, settings, `trimexplode` and
  headers.
- `Matrix` (`matrix.dfy`): the `array_map` closure that builds the rows.
- `Rendering` (`rendering.dfy`): `renderTable` and `renderTableCells`.
- `GroupMatrixTable` (`groupmatrix_table.dfy`): `handle`, `render`, and how
  the rows that `handle` builds render.

Each loop of the source that builds a value step by step is a method, and
each method is proved equal to a specification function. The properties are
proved about those functions:

| method | specification function |
|---|---|
| `TrimExplode` | `Kept` |
| `ParseConfig` | `ConfigOf` |
| `BuildRow` | `RowOf` |
| `BuildRows` | `RowsOf` |
| `RenderTable` | `TableHtml` |

The headers (`array_replace` and `array_merge`) are expressions in the
source, so the model keeps them as functions. `renderTableCells` has a
`foreach` loop too, but the loop returns early through a recursive call
that carries the accumulated html along; the model writes it as one
recursive function over the row and that accumulator, `RenderTableCells`. `Cells` is an independent definition of the
cells a row renders to, stated by position. `RenderTableCellsAppendsCells`
proves that the recursion emits exactly those cells.

What `syntax/table.php` does, where a reader might expect otherwise:

- Rows are not sorted; they keep the backend's order.
- No cell or header is HTML-escaped.
- Membership cells get no special style.
- `attributes` does not default to `user`; a missing setting gives no
  attribute columns.
- An item that is blank after trimming is kept as `""` (`"a, ,b"` gives
  `["a", "", "b"]`). Only pieces that are `""` or `"0"` before trimming are
  skipped.
- A setting's value is only the text between the first and second colon,
  not everything after the first colon.
- Group membership comes from one `grps` list in each user record, not from
  one fetch per group.

## Model

| member | source | states |
|---|---|---|
| PhpStrings.Trim | syntax/table.php:71 | trim() leaves neither end a trim character, and never lengthens |
| PhpStrings.TrimLeftSpec | syntax/table.php:185 | the left pass removes a run of trim characters from the front and stops at the first other character |
| PhpStrings.TrimRightSpec | syntax/table.php:185 | the right pass removes a run of trim characters from the back and stops at the last other character |
| PhpStrings.TrimInfix | syntax/table.php:185 | trim() removes only runs of trim characters at the two ends |
| PhpStrings.TrimTrimmed | syntax/table.php:185 | trim() leaves an already-trimmed item unchanged |
| PhpStrings.TrimBlank | syntax/table.php:185 | trim() of a blank piece is "" |
| PhpStrings.Explode | syntax/table.php:62 | explode() yields at least one piece, no piece holds the delimiter, and implode() restores the input |
| PhpStrings.ExplodeImplode | syntax/table.php:181 | explode() inverts implode() on delimiter-free pieces |
| PhpStrings.ExplodeNoDelimiter | syntax/table.php:70 | a line without the delimiter explodes to itself |
| PhpStrings.ExplodeAt | syntax/table.php:70 | the first piece ends at the first delimiter |
| PhpStrings.ExplodeCons | syntax/table.php:181 | a delimiter starts a new piece; any other character joins the first piece |
| PhpArrays.StrTruthy | syntax/table.php:182 | defines PHP truthiness of a string, as `!` tests it here and `empty()` and `?` test it on lines 74 and 147: false exactly for "" and "0"; KeptOne, GroupsMissing and TableClass use it |
| PhpArrays.Truthy | syntax/table.php:103 | defines PHP truthiness of a value: a string by StrTruthy, an array when non-empty; Cell uses it, and RowUser and RowAttribute prove its effect |
| PhpArrays.Find | syntax/table.php:103 | `$a[$k]` is null exactly when k is not a key, and otherwise the value of an entry with key k |
| PhpArrays.Put | syntax/table.php:100-106 | defines the keyed assignment `$a[$k] = $v` on an ordered array, as on lines 100, 103 and 106; its properties are proved in KeysPut, FindPut and PutPut |
| PhpArrays.KeysPut | syntax/table.php:100 | assigning to an existing key keeps the keys; a new key is appended as the last entry |
| PhpArrays.FindPut | syntax/table.php:100 | after `$a[$k] = $v`, `$a[$k]` is v and every other key reads as before |
| PhpArrays.PutPut | syntax/table.php:106 | a second assignment to a key replaces the first |
| PhpArrays.PutEach | syntax/table.php:102-107 | defines a `foreach` of keyed assignments from a base array; its properties are proved in FindPutEach, KeysPutEach and PutEachDistinct |
| PhpArrays.FindPutEach | syntax/table.php:102-107 | after a foreach of assignments, each loop key reads as its assigned value and other keys as before |
| PhpArrays.KeysPutEach | syntax/table.php:102-104 | the loop's keys come out once each, in order of first assignment |
| PhpArrays.PutEachDistinct | syntax/table.php:102-107 | with distinct keys, one entry per key, in key order |
| PhpArrays.Dedup | syntax/table.php:102-104 | the keys come out once each, and the same keys as the loop's |
| PhpArrays.DedupDistinct | syntax/table.php:102-104 | distinct keys are kept as they are |
| Directive.Kept | syntax/table.php:178-188 | trimexplode never returns more items than explode gave pieces |
| Directive.TrimExplode | syntax/table.php:178-188 | trimexplode returns exactly what Kept keeps of the explode pieces |
| Directive.KeptTrimmed | syntax/table.php:185 | no item trimexplode returns has a leading or trailing trim character |
| Directive.KeptAppend | syntax/table.php:181-186 | items are kept piece by piece, in the order of the pieces |
| Directive.KeptAllTruthy | syntax/table.php:181-186 | when no piece is falsy, item i is piece i trimmed |
| Directive.KeptOne | syntax/table.php:182-185 | a piece is kept, trimmed, exactly when it is neither "" nor "0" before trimming |
| Directive.BlankItemKept | syntax/table.php:178-188 | "a, ,b" gives ["a", "", "b"] |
| Directive.ZeroSkippedBeforeTrim | syntax/table.php:182-185 | "0, 0," gives ["0"]: falsiness is checked before trimming |
| Directive.ExplodeThree | syntax/table.php:181 | two delimiters between delimiter-free parts give those three pieces |
| Directive.Interior | syntax/table.php:64-66 | array_shift and array_pop leave all lines but the first and the last |
| Directive.LineKey | syntax/table.php:70-71 | defines `trim($key)` of `list($key, $value) = explode(':', $line)`; its properties are proved in LineWithoutColon, LineWithOneColon and LineWithMoreColons |
| Directive.LineValue | syntax/table.php:70-71 | defines `trim($value)`: the second ':' piece trimmed, or "" without a ':'; its properties are proved in LineWithoutColon, LineWithOneColon and LineWithMoreColons |
| Directive.LineWithoutColon | syntax/table.php:70-71 | a line without ':' sets its trimmed text to "" |
| Directive.LineWithOneColon | syntax/table.php:70-71 | `key:value` sets trim(key) to trim(value) |
| Directive.LineWithMoreColons | syntax/table.php:70-71 | with a second ':', the value is only the text before it |
| Directive.ConfigOf | syntax/table.php:68-72 | defines `$cfg` after the foreach over the lines; its properties are proved in ConfigOfKeys and ConfigOfLastWins, and ParseConfig is proved equal to it |
| Directive.ConfigOfKeys | syntax/table.php:68-72 | a key is configured exactly when some interior line has it |
| Directive.ConfigOfLastWins | syntax/table.php:68-72 | the last line with a key decides its value |
| Directive.ParseConfig | syntax/table.php:62-72 | `$cfg` is ConfigOf of the interior lines of the match |
| Directive.Setting | syntax/table.php:79-81 | defines `$cfg[$key]` with a missing key read as "", as explode sees null; MissingListEmpty proves what that gives |
| Directive.GroupsMissing | syntax/table.php:74 | defines `empty($cfg['groups'])`: the key is missing or its value is "" or "0"; Handle's first ensures uses it |
| Directive.ArrayReplace | syntax/table.php:83 | length is the longer of the two; position i is titles[i] where there is one, else groups[i] |
| Directive.GroupHeaders | syntax/table.php:83 | defines `$titles ? array_replace($groups, $titles) : $groups`; its properties are proved in HeadersLayout and HeadersWithoutTitles |
| Directive.Headers | syntax/table.php:84 | defines `array_merge($attributes, $groupHeaders)`; its properties are proved in HeadersLayout and HeadersWithoutTitles |
| Directive.HeadersLayout | syntax/table.php:83-84 | headers are the attributes, then max(\|groups\|, \|titles\|) group headers, each the title or else the group |
| Directive.HeadersWithoutTitles | syntax/table.php:83-84 | without titles, headers are attributes followed by groups |
| Matrix.Cell | syntax/table.php:103 | defines `$user[$attribute] ?: ''`; its properties are proved in RowUser and RowAttribute |
| Matrix.InArray | syntax/table.php:106 | defines `in_array($group, $user['grps'])` with strict string comparison; used by Flag |
| Matrix.Flag | syntax/table.php:106 | defines the flag 'x' for a member and '' otherwise; its properties are proved in RowFlags |
| Matrix.AttributeCells | syntax/table.php:102-104 | defines `$row` after the foreach over the attributes; its properties are proved in RowAttribute, RowKeys and RowShape |
| Matrix.Flags | syntax/table.php:105-107 | defines the `memberof` array after the foreach over the groups; its properties are proved in RowFlags |
| Matrix.MemberOfBase | syntax/table.php:106 | defines the array that `$row['memberof'][$group] = …` writes into: the array the row holds under `memberof`, or a new one (see "## Left out"); WithFlagsStep and RowOfLayout use it |
| Matrix.WithFlags | syntax/table.php:105-107 | defines `$row` after the foreach over the groups; its properties are proved in WithFlagsStep, RowKeys and RowOfLayout |
| Matrix.WithFlagsStep | syntax/table.php:105-107 | each group writes its flag into the `memberof` array the row holds so far |
| Matrix.RowOf | syntax/table.php:98-110 | defines the row the array_map closure returns; its properties are proved in RowUser, RowAttribute, RowKeys, RowFlags, RowOfLayout and RowShape, and BuildRow is proved equal to it |
| Matrix.BuildRow | syntax/table.php:98-110 | the closure returns RowOf of the user |
| Matrix.RowsOf | syntax/table.php:98-110 | one row per user |
| Matrix.RowsOfAt | syntax/table.php:98-110 | row i is the closure applied to user i, in backend order |
| Matrix.BuildRows | syntax/table.php:98-112 | array_map returns RowsOf of the users |
| Matrix.RowUser | syntax/table.php:99-104 | the 'user' cell is the record's key, whatever the record held; a falsy username shows as '' |
| Matrix.RowAttribute | syntax/table.php:102-104 | every configured attribute other than `user`, and other than `memberof` when groups are configured, is the record's value, or '' when it is missing or falsy |
| Matrix.RowKeys | syntax/table.php:102-107 | a row's keys are the distinct attributes in first-use order, then 'memberof' when there are groups and no attribute is already named `memberof` |
| Matrix.RowFlags | syntax/table.php:105-107 | when no attribute is named `memberof`, `memberof` holds one entry per distinct group, in order, and it is 'x' exactly when the group is in the user's grps |
| Matrix.RowOfLayout | syntax/table.php:102-107 | when groups are configured and no attribute is named `memberof`, the row is the attribute cells followed by one new `memberof` entry holding the flags |
| Matrix.RowShape | syntax/table.php:98-109 | with distinct attributes and groups and no attribute named `memberof`, the row is the attribute cells in order, then `memberof` with the flags in group order |
| Rendering.RenderTableCells | syntax/table.php:197-207 | defines renderTableCells: scalars appended as cells, and at the first nested array the result is that array's rendering; its properties are proved in RenderTableCellsAppendsCells together with NestedArrayEndsRow and ScalarRowCells |
| Rendering.EntriesSizeHead | syntax/table.php:199 | dropping the first item makes the row smaller |
| Rendering.EntriesSizeAt | syntax/table.php:203 | descending into a nested array makes the row smaller |
| Rendering.FirstNested | syntax/table.php:199-204 | the items before the returned index are scalars, and the item at it is an array |
| Rendering.Texts | syntax/table.php:201 | one text per scalar item, at its index |
| Rendering.TdsAppend | syntax/table.php:199-201 | cells of two text lists are the cells of each, in order |
| Rendering.RenderTableCellsAppendsCells | syntax/table.php:197-207 | renderTableCells appends exactly the cells of Cells(row) to html |
| Rendering.CellsOfScalarHead | syntax/table.php:199-201 | a scalar first item is the first cell |
| Rendering.ScalarRowCells | syntax/table.php:199-206 | a row of scalars gives one cell per item, in order |
| Rendering.NestedArrayEndsRow | syntax/table.php:199-204 | at the first nested array the cells continue with that array's and nothing after it is emitted |
| Rendering.FirstNestedAfterScalars | syntax/table.php:199-204 | the first nested array follows the leading scalars |
| Rendering.TableClass | syntax/table.php:147 | defines the rest of the opening tag: ` class="…">` when className is truthy, `>` otherwise; RenderTable is proved to emit it |
| Rendering.TableHtml | syntax/table.php:144-169 | defines the table renderTable returns; its properties are proved in ThsAppend, TrsAppend and ThsTrsOne, and RenderTable is proved equal to it |
| Rendering.RenderTable | syntax/table.php:144-169 | renderTable returns TableHtml: open tag, class only when className is truthy, one `<th>` per header in order, one `<tr>` per row in order, closing tags |
| Rendering.ThsAppend | syntax/table.php:151-153 | the header cells follow the order of the headers |
| Rendering.TrsAppend | syntax/table.php:158-164 | the table rows follow the order of the rows |
| Rendering.ThsTrsOne | syntax/table.php:151-163 | one header is `<th>header</th>`; one row is `<tr>` + its cells + `</tr>` |
| GroupMatrixTable.List | syntax/table.php:79-81 | defines `trimexplode(',', $cfg[$key])`; TrimExplode is proved equal to Kept of the pieces, and MissingListEmpty proves a missing setting gives no items |
| GroupMatrixTable.MissingListEmpty | syntax/table.php:79-81 | a setting the block does not configure gives an empty list, so `attributes` has no default |
| GroupMatrixTable.MissingListsHeaders | syntax/table.php:79-84 | without `attributes` the headers are the group headers alone; without `titles` they are the attributes followed by the groups |
| GroupMatrixTable.Handle | syntax/table.php:55-115 | a missing, "" or "0" groups setting gives empty headers and rows; otherwise headers from the three lists and one row per user; no users gives no rows |
| GroupMatrixTable.Render | syntax/table.php:126-134 | true only for the xhtml mode, and then the table is appended to the document; any other mode leaves it unchanged |
| GroupMatrixTable.UserCellsScalar | syntax/table.php:100-103 | string attribute values give string cells |
| GroupMatrixTable.CellsOfLaidOut | syntax/table.php:197-207 | n scalars then an array of m scalars render to n + m cells, in order |
| GroupMatrixTable.ShapedRowCells | syntax/table.php:197-207 | a row of attribute cells then one flags array renders to the attribute texts, then the flags |
| GroupMatrixTable.RowCells | syntax/table.php:197-207 | when `attributes` and `groups` each hold distinct items, no attribute is named `memberof` and no configured attribute of the record holds an array, a row built by handle renders to \|attributes\| + \|groups\| cells: the attribute values, then the group flags |

## Left out

- `connectTo` and its lexer pattern (lines 40-43) belong to the host wiki's lexer.
- `getType`, `getPType` and `getSort` (lines 14-33) are constants the host reads.
- The `global $auth` and `retrieveUsers` call (lines 86-92) are an outside backend. Their result is a parameter of `Handle`: an ordered list of (username, record) pairs. The `grps` filter string passed to the backend is not modelled.
- `msg()` (line 75) shows a warning to the reader and is not modelled.
- Handle: its precondition says every record carries an array under `grps` whenever the configured group list is non-empty, as the backend promises; with no groups the source never reads `grps`. Without that list PHP 8 raises a TypeError in `in_array`, which the model does not cover.
- Matrix.InArray: compares the group name with the list's string entries strictly. PHP's loose `in_array` also matches numeric strings such as "1" and "01".
- Matrix.MemberOfBase: when an attribute is named `memberof`, line 103 has already stored a string or an array under `$row['memberof']` (a falsy value becomes `''`). For any string there, `''` included, PHP (7.1 and later) treats `$row['memberof'][$group] = …` on line 106 as a string-offset write. The model instead keeps an array that is already there and starts a new one in place of any string. RowAttribute (when groups are configured), RowOfLayout, RowFlags, RowShape and RowCells exclude an attribute named `memberof`.
- GroupMatrixTable.RowCells: requires distinct items in `attributes` and in `groups`, because in the source duplicates misalign the table. The headers list every item, but `$row` keys are unique (lines 102-107), so `attributes: user, user` gives two header cells and one row cell. The model reproduces this (`Headers` and `RowOf` follow the source); only the lemma excludes it.
- GroupMatrixTable.RowCells: requires string values under the configured attributes. In the source, an array-valued attribute (such as `grps`) makes `renderTableCells` descend into that array (line 203) and drop every later cell of the row, the group flags included, so that row's cells no longer line up with the headers. `NestedArrayEndsRow` states this for the model.
- Matrix.RowOf: with no attributes and no groups, the closure returns an undefined `$row` (null). The model returns an empty row, which renders the same empty `<tr></tr>`.
- PHP's conversion of numeric-string keys to integer keys is not modelled. Keys are compared as strings, and that conversion keeps distinct strings distinct.
- Rendering.RenderTable: the model renders only the string values of the model's Value type. PHP's string conversion of other scalars (numbers, booleans, null) is not modelled.
