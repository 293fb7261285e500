/**
 * The directive parser of the groupmatrix syntax plugin: the matched block is
 * cut into lines, the opening and closing marker lines are dropped, every
 * other line becomes a `key: value` setting, and the comma lists `groups`,
 * `attributes` and `titles` are split into items. The table headers are the
 * attributes followed by the groups, with titles written over the groups
 * position by position.
 */
module Directive {
  import opened PhpStrings
  import opened PhpArrays

  // ---------------------------------------------------------------------
  // trimexplode
  // ---------------------------------------------------------------------

  /** The items trimexplode keeps from the pieces of an explode: every piece
      that is truthy before trimming ("" and "0" are not), trimmed, in order.
      A piece of only blanks is truthy and is kept as "". */
  function Kept(pieces: seq<string>): (items: seq<string>)
    ensures |items| <= |pieces|
  {
    if pieces == [] then []
    else
      var last := pieces[|pieces| - 1];
      Kept(pieces[..|pieces| - 1]) + (if StrTruthy(last) then [Trim(last)] else [])
  }

  /** trimexplode($delimiter, $string) */
  method TrimExplode(d: char, s: string) returns (arr: seq<string>)
    ensures arr == Kept(Explode(d, s))
  {
    var pieces := Explode(d, s);
    arr := [];
    var i := 0;
    while i < |pieces|
      invariant 0 <= i <= |pieces|
      invariant arr == Kept(pieces[..i])
    {
      var value := pieces[i];
      KeptSnoc(pieces, i);
      if StrTruthy(value) {
        arr := arr + [Trim(value)];
      }
      i := i + 1;
    }
    assert pieces[..i] == pieces;
  }

  /** One more piece: Kept of the longer prefix is Kept of the shorter one
      plus what the new piece contributes. */
  lemma KeptSnoc(pieces: seq<string>, i: nat)
    requires i < |pieces|
    ensures Kept(pieces[..i + 1]) == Kept(pieces[..i]) + (if StrTruthy(pieces[i]) then [Trim(pieces[i])] else [])
  {
    assert pieces[..i + 1][..i] == pieces[..i];
  }

  /** No kept item has a leading or trailing trim character. */
  lemma {:induction false} KeptTrimmed(pieces: seq<string>)
    ensures forall i :: 0 <= i < |Kept(pieces)| ==> IsTrimmed(Kept(pieces)[i])
  {
    if pieces != [] {
      var init := pieces[..|pieces| - 1];
      var last := pieces[|pieces| - 1];
      KeptTrimmed(init);
      var tail := if StrTruthy(last) then [Trim(last)] else [];
      assert forall i :: 0 <= i < |tail| ==> IsTrimmed(tail[i]);
      assert Kept(pieces) == Kept(init) + tail;
    }
  }

  /** Keeping is done piece by piece, so it follows the order of the pieces. */
  lemma {:induction false} KeptAppend(a: seq<string>, b: seq<string>)
    ensures Kept(a + b) == Kept(a) + Kept(b)
  {
    if b != [] {
      var b' := b[..|b| - 1];
      assert (a + b)[..|a + b| - 1] == a + b';
      assert (a + b)[|a + b| - 1] == b[|b| - 1];
      KeptAppend(a, b');
    } else {
      assert a + b == a;
    }
  }

  /** When no piece is falsy, every piece is kept, trimmed, at its own index. */
  lemma {:induction false} KeptAllTruthy(pieces: seq<string>)
    requires forall i :: 0 <= i < |pieces| ==> StrTruthy(pieces[i])
    ensures |Kept(pieces)| == |pieces|
    ensures forall i :: 0 <= i < |pieces| ==> Kept(pieces)[i] == Trim(pieces[i])
  {
    if pieces != [] {
      var init := pieces[..|pieces| - 1];
      var last := pieces[|pieces| - 1];
      assert forall i :: 0 <= i < |init| ==> init[i] == pieces[i];
      KeptAllTruthy(init);
      assert Kept(pieces) == Kept(init) + [Trim(last)];
    }
  }

  /** A single piece is kept, trimmed, exactly when it is truthy; with
      KeptAppend this determines Kept on every sequence of pieces. */
  lemma KeptOne(piece: string)
    ensures Kept([piece]) == if StrTruthy(piece) then [Trim(piece)] else []
  {
    assert [piece][..0] == [];
  }

  /** "a, ,b" gives ["a", "", "b"]: the blank middle item is kept, empty. */
  lemma BlankItemKept()
    ensures Kept(Explode(',', "a, ,b")) == ["a", "", "b"]
  {
    ExplodeThree(',', "a", " ", "b");
    assert "a" + [','] + " " + [','] + "b" == "a, ,b";
    KeptBlankPieces();
  }

  lemma KeptBlankPieces()
    ensures Kept(["a", " ", "b"]) == ["a", "", "b"]
  {
    var p: seq<string> := ["a", " ", "b"];
    assert p[..2] == ["a", " "];
    KeptBlankPair();
    assert Trim("b") == "b" by { TrimTrimmed("b"); }
    assert Kept(p) == Kept(p[..2]) + [Trim("b")];
  }

  lemma KeptBlankPair()
    ensures Kept(["a", " "]) == ["a", ""]
  {
    var q: seq<string> := ["a", " "];
    assert q[..1] == ["a"];
    assert Kept(["a"]) == ["a"] by {
      TrimTrimmed("a");
      assert ["a"][..0] == [];
    }
    assert Trim(" ") == "" by { TrimBlank(" "); }
    assert Kept(q) == Kept(q[..1]) + [Trim(" ")];
  }

  /** "0, 0," gives ["0"]: the bare "0" and the empty tail are skipped before
      trimming, while " 0" is truthy and is trimmed to "0". */
  lemma ZeroSkippedBeforeTrim()
    ensures Kept(Explode(',', "0, 0,")) == ["0"]
  {
    ExplodeThree(',', "0", " 0", "");
    assert "0" + [','] + " 0" + [','] + "" == "0, 0,";
    KeptZeroPieces();
  }

  lemma KeptZeroPieces()
    ensures Kept(["0", " 0", ""]) == ["0"]
  {
    var p: seq<string> := ["0", " 0", ""];
    assert p[..2] == ["0", " 0"];
    KeptZeroPair();
    assert Kept(p) == Kept(p[..2]);
  }

  lemma KeptZeroPair()
    ensures Kept(["0", " 0"]) == ["0"]
  {
    var q: seq<string> := ["0", " 0"];
    assert q[..1] == ["0"];
    assert Kept(["0"]) == [] by {
      assert ["0"][..0] == [];
    }
    assert Trim(" 0") == "0" by {
      assert " 0"[1..] == "0";
      assert TrimLeft(" 0") == "0";
    }
    assert Kept(q) == Kept(q[..1]) + [Trim(" 0")];
  }

  lemma ExplodeThree(d: char, a: string, b: string, c: string)
    requires d !in a && d !in b && d !in c
    ensures Explode(d, a + [d] + b + [d] + c) == [a, b, c]
  {
    var pieces := [a, b, c];
    assert pieces[1..] == [b, c];
    assert pieces[1..][1..] == [c];
    assert Implode(d, [c]) == c;
    assert Implode(d, [b, c]) == b + [d] + c;
    assert Implode(d, pieces) == a + [d] + (b + [d] + c);
    assert a + [d] + (b + [d] + c) == a + [d] + b + [d] + c;
    assert forall i :: 0 <= i < |pieces| ==> d !in pieces[i];
    ExplodeImplode(d, pieces);
  }

  // ---------------------------------------------------------------------
  // Configuration lines
  // ---------------------------------------------------------------------

  /** The lines left after array_shift and array_pop: all but the first and
      the last. */
  function Interior(lines: seq<string>): (r: seq<string>)
    ensures |lines| <= 2 ==> r == []
    ensures |lines| > 2 ==> |r| == |lines| - 2 && forall i :: 0 <= i < |r| ==> r[i] == lines[i + 1]
  {
    if |lines| <= 1 then [] else lines[1..|lines| - 1]
  }

  /** The key of `list($key, $value) = explode(':', $line)`, trimmed. */
  function LineKey(line: string): string {
    Trim(Explode(':', line)[0])
  }

  /** The value of `list($key, $value) = explode(':', $line)`, trimmed: only
      the second piece; a line without ':' leaves $value null, which trims
      to "". */
  function LineValue(line: string): string {
    var pieces := Explode(':', line);
    if |pieces| >= 2 then Trim(pieces[1]) else ""
  }

  /** A line without ':' is a key with an empty value. */
  lemma LineWithoutColon(line: string)
    requires ':' !in line
    ensures LineKey(line) == Trim(line) && LineValue(line) == ""
  {
    ExplodeNoDelimiter(':', line);
  }

  /** `key: value` with a single colon. */
  lemma LineWithOneColon(key: string, value: string)
    requires ':' !in key && ':' !in value
    ensures LineKey(key + ":" + value) == Trim(key)
    ensures LineValue(key + ":" + value) == Trim(value)
  {
    assert key + ":" + value == key + [':'] + value;
    ExplodeAt(':', key, value);
    ExplodeNoDelimiter(':', value);
  }

  /** With a second colon, the value stops there: whatever follows it is
      lost. */
  lemma LineWithMoreColons(key: string, value: string, rest: string)
    requires ':' !in key && ':' !in value
    ensures LineKey(key + ":" + value + ":" + rest) == Trim(key)
    ensures LineValue(key + ":" + value + ":" + rest) == Trim(value)
  {
    assert key + ":" + value + ":" + rest == key + [':'] + (value + [':'] + rest);
    ExplodeAt(':', key, value + [':'] + rest);
    ExplodeAt(':', value, rest);
  }

  /** The `$cfg` dictionary after the foreach over the lines: each line sets
      its key, a later line overwriting an earlier one. */
  function ConfigOf(lines: seq<string>): map<string, string> {
    if lines == [] then map[]
    else
      var last := lines[|lines| - 1];
      ConfigOf(lines[..|lines| - 1])[LineKey(last) := LineValue(last)]
  }

  /** Exactly the keys of the lines are configured. */
  lemma {:induction false} ConfigOfKeys(lines: seq<string>, k: string)
    ensures k in ConfigOf(lines) <==> exists i :: 0 <= i < |lines| && LineKey(lines[i]) == k
  {
    if lines != [] {
      var init := lines[..|lines| - 1];
      ConfigOfKeys(init, k);
      if exists i :: 0 <= i < |lines| && LineKey(lines[i]) == k {
        var i :| 0 <= i < |lines| && LineKey(lines[i]) == k;
        if i < |lines| - 1 {
          assert LineKey(init[i]) == k;
        }
      }
    }
  }

  /** The last line with a key decides its value. */
  lemma {:induction false} ConfigOfLastWins(lines: seq<string>, i: nat)
    requires i < |lines|
    requires forall j :: i < j < |lines| ==> LineKey(lines[j]) != LineKey(lines[i])
    ensures LineKey(lines[i]) in ConfigOf(lines)
    ensures ConfigOf(lines)[LineKey(lines[i])] == LineValue(lines[i])
  {
    if i < |lines| - 1 {
      var init := lines[..|lines| - 1];
      assert init[i] == lines[i];
      ConfigOfLastWins(init, i);
    }
  }

  lemma ConfigOfSnoc(lines: seq<string>, i: nat)
    requires i < |lines|
    ensures ConfigOf(lines[..i + 1]) == ConfigOf(lines[..i])[LineKey(lines[i]) := LineValue(lines[i])]
  {
    assert lines[..i + 1][..i] == lines[..i];
  }

  /** The `handle` steps up to the settings: explode into lines, drop the
      marker lines with array_shift and array_pop, and fill `$cfg`. */
  method ParseConfig(matched: string) returns (cfg: map<string, string>)
    ensures cfg == ConfigOf(Interior(Explode('\n', matched)))
  {
    var all := Explode('\n', matched);
    var lines := all[1..];
    if |lines| > 0 {
      lines := lines[..|lines| - 1];
    }
    assert lines == Interior(all);
    cfg := map[];
    var i := 0;
    while i < |lines|
      invariant 0 <= i <= |lines|
      invariant cfg == ConfigOf(lines[..i])
    {
      var line := lines[i];
      ConfigOfSnoc(lines, i);
      cfg := cfg[LineKey(line) := LineValue(line)];
      i := i + 1;
    }
    assert lines[..i] == lines;
  }

  /** `$cfg[$key]` read as a string: a missing key is null, which explode
      treats as "". */
  function Setting(cfg: map<string, string>, key: string): string {
    if key in cfg then cfg[key] else ""
  }

  /** `empty($cfg['groups'])`: missing, "" or "0". */
  predicate GroupsMissing(cfg: map<string, string>) {
    "groups" !in cfg || !StrTruthy(cfg["groups"])
  }

  // ---------------------------------------------------------------------
  // Headers
  // ---------------------------------------------------------------------

  function Max(a: nat, b: nat): nat {
    if a >= b then a else b
  }

  /** array_replace($base, $replacements) on two lists: the replacements
      take the positions they have, the base fills the rest. */
  function ArrayReplace(base: seq<string>, replacements: seq<string>): (r: seq<string>)
    ensures |r| == Max(|base|, |replacements|)
    ensures forall i :: 0 <= i < |r| ==> r[i] == if i < |replacements| then replacements[i] else base[i]
  {
    if |replacements| >= |base| then replacements
    else replacements + base[|replacements|..]
  }

  /** `$titles ? array_replace($groups, $titles) : $groups`. */
  function GroupHeaders(groups: seq<string>, titles: seq<string>): seq<string> {
    if |titles| > 0 then ArrayReplace(groups, titles) else groups
  }

  /** `array_merge($attributes, $groupHeaders)`. */
  function Headers(attributes: seq<string>, groups: seq<string>, titles: seq<string>): seq<string> {
    attributes + GroupHeaders(groups, titles)
  }

  /** The headers are the attributes, then one header per group position:
      the title where there is one and the group name otherwise; titles
      beyond the last group are headers too. */
  lemma HeadersLayout(attributes: seq<string>, groups: seq<string>, titles: seq<string>)
    ensures var h := Headers(attributes, groups, titles);
      && |h| == |attributes| + Max(|groups|, |titles|)
      && h[..|attributes|] == attributes
      && forall i :: 0 <= i < Max(|groups|, |titles|) ==>
           h[|attributes| + i] == if i < |titles| then titles[i] else groups[i]
  {
    var h := Headers(attributes, groups, titles);
    assert h[..|attributes|] == attributes;
  }

  /** Without titles the headers are the attributes followed by the groups. */
  lemma HeadersWithoutTitles(attributes: seq<string>, groups: seq<string>)
    ensures Headers(attributes, groups, []) == attributes + groups
  {
  }
}
