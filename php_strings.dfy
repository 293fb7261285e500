/**
 * The three PHP string built-ins the plugin relies on, for the single-character
 * delimiters it uses: trim() with its default character list, explode() and
 * implode().
 */
module PhpStrings {

  /** The characters PHP's trim() strips by default: space, tab, line feed,
      carriage return, NUL and vertical tab. */
  predicate IsTrimChar(c: char) {
    c == ' ' || c == '\t' || c == '\n' || c == '\r' || c == '\0' || c == '\U{B}'
  }

  predicate AllTrimChars(s: string) {
    forall i :: 0 <= i < |s| ==> IsTrimChar(s[i])
  }

  /** Neither end of s is a character trim() would strip. */
  predicate IsTrimmed(s: string) {
    s == [] || (!IsTrimChar(s[0]) && !IsTrimChar(s[|s| - 1]))
  }

  function TrimLeft(s: string): (r: string)
    ensures |r| <= |s|
  {
    if |s| > 0 && IsTrimChar(s[0]) then TrimLeft(s[1..]) else s
  }

  function TrimRight(s: string): (r: string)
    ensures |r| <= |s|
  {
    if |s| > 0 && IsTrimChar(s[|s| - 1]) then TrimRight(s[..|s| - 1]) else s
  }

  /** TrimLeft removes a run of trim characters from the front, and no
      more. */
  lemma {:induction false} TrimLeftSpec(s: string)
    ensures TrimLeft(s) == s[|s| - |TrimLeft(s)|..]
    ensures AllTrimChars(s[..|s| - |TrimLeft(s)|])
    ensures TrimLeft(s) == [] || !IsTrimChar(TrimLeft(s)[0])
  {
    if |s| > 0 && IsTrimChar(s[0]) {
      var r := TrimLeft(s[1..]);
      TrimLeftSpec(s[1..]);
      assert s[..|s| - |r|] == [s[0]] + s[1..][..|s[1..]| - |r|];
    }
  }

  /** TrimRight removes a run of trim characters from the back, and no
      more. */
  lemma {:induction false} TrimRightSpec(s: string)
    ensures TrimRight(s) == s[..|TrimRight(s)|]
    ensures AllTrimChars(s[|TrimRight(s)|..])
    ensures TrimRight(s) == [] || !IsTrimChar(TrimRight(s)[|TrimRight(s)| - 1])
  {
    if |s| > 0 && IsTrimChar(s[|s| - 1]) {
      var r := TrimRight(s[..|s| - 1]);
      TrimRightSpec(s[..|s| - 1]);
      assert s[|r|..] == s[..|s| - 1][|r|..] + [s[|s| - 1]];
    }
  }

  /** PHP trim($s): the part of s left once the runs of trim characters at
      both ends are removed. */
  function Trim(s: string): (r: string)
    ensures IsTrimmed(r)
    ensures |r| <= |s|
  {
    var l := TrimLeft(s);
    TrimLeftSpec(s);
    TrimRightSpec(l);
    TrimRight(l)
  }

  /** What trim() removes are trim characters at the two ends, and nothing
      else; with IsTrimmed(Trim(s)) this determines Trim(s) uniquely. */
  lemma TrimInfix(s: string)
    ensures exists i, j :: 0 <= i <= j <= |s| && Trim(s) == s[i..j]
                           && AllTrimChars(s[..i]) && AllTrimChars(s[j..])
  {
    var l := TrimLeft(s);
    var r := TrimRight(l);
    TrimLeftSpec(s);
    TrimRightSpec(l);
    var i := |s| - |l|;
    assert r == s[i..i + |r|];
    assert s[i + |r|..] == l[|r|..];
  }

  /** trim() leaves a string that is already trimmed as it is. */
  lemma TrimTrimmed(s: string)
    requires IsTrimmed(s)
    ensures Trim(s) == s
  {
  }

  /** trim() turns a string of trim characters into "". */
  lemma {:induction false} TrimBlank(s: string)
    requires AllTrimChars(s)
    ensures Trim(s) == ""
  {
    TrimLeftBlank(s);
  }

  lemma {:induction false} TrimLeftBlank(s: string)
    requires AllTrimChars(s)
    ensures TrimLeft(s) == ""
  {
    if s != [] {
      TrimLeftBlank(s[1..]);
    }
  }

  /** PHP implode($d, $pieces). */
  function Implode(d: char, pieces: seq<string>): string {
    if |pieces| == 0 then ""
    else if |pieces| == 1 then pieces[0]
    else pieces[0] + [d] + Implode(d, pieces[1..])
  }

  /** PHP explode($d, $s): the pieces of s between occurrences of d. There is
      always at least one piece, no piece holds d, and implode undoes it. */
  function Explode(d: char, s: string): (pieces: seq<string>)
    ensures |pieces| >= 1
    ensures forall i :: 0 <= i < |pieces| ==> d !in pieces[i]
    ensures Implode(d, pieces) == s
  {
    if s == [] then [[]]
    else
      var rest := Explode(d, s[1..]);
      if s[0] == d then
        assert s == [] + [d] + s[1..];
        [[]] + rest
      else
        var r := [[s[0]] + rest[0]] + rest[1..];
        assert r[1..] == rest[1..];
        assert s == [s[0]] + s[1..];
        r
  }

  /** explode is the inverse of implode on pieces free of the delimiter. */
  lemma {:induction false} ExplodeImplode(d: char, pieces: seq<string>)
    requires |pieces| >= 1
    requires forall i :: 0 <= i < |pieces| ==> d !in pieces[i]
    ensures Explode(d, Implode(d, pieces)) == pieces
  {
    if |pieces| == 1 {
      ExplodeNoDelimiter(d, pieces[0]);
    } else {
      ExplodeImplode(d, pieces[1..]);
      ExplodeAt(d, pieces[0], Implode(d, pieces[1..]));
    }
  }

  /** A string without the delimiter explodes to itself. */
  lemma {:induction false} ExplodeNoDelimiter(d: char, s: string)
    requires d !in s
    ensures Explode(d, s) == [s]
  {
    if s != [] {
      ExplodeNoDelimiter(d, s[1..]);
    }
  }

  /** The first piece ends at the first delimiter. */
  lemma {:induction false} ExplodeAt(d: char, a: string, b: string)
    requires d !in a
    ensures Explode(d, a + [d] + b) == [a] + Explode(d, b)
  {
    if a == [] {
      assert a + [d] + b == [d] + b;
      ExplodeCons(d, d, b);
    } else {
      var t := a[1..] + [d] + b;
      assert a + [d] + b == [a[0]] + t;
      ExplodeAt(d, a[1..], b);
      ExplodeCons(d, a[0], t);
      var rest := Explode(d, t);
      assert rest[0] == a[1..] && rest[1..] == Explode(d, b);
      assert [a[0]] + a[1..] == a;
    }
  }

  /** Helper for ExplodeAt: one unfolding of Explode. A delimiter starts
      a new piece, any other character joins the first piece. */
  lemma ExplodeCons(d: char, c: char, t: string)
    ensures Explode(d, [c] + t) == if c == d then [[]] + Explode(d, t)
                                   else [[c] + Explode(d, t)[0]] + Explode(d, t)[1..]
  {
    assert ([c] + t)[0] == c && ([c] + t)[1..] == t;
  }
}
