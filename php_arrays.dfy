/**
 * PHP values as the plugin sees them: strings and ordered arrays. An ordered
 * array is a sequence of key/value pairs in insertion order; PHP keeps its
 * keys unique and assigning to an existing key replaces the value where it
 * stands. Integer keys are written as their decimal strings: PHP turns a
 * canonical numeric string key into that integer, which keeps distinct
 * strings distinct, so key equality is string equality.
 */
module PhpArrays {

  datatype Option<T> = None | Some(value: T)

  /** A PHP value: a string, or an array of (key, value) entries in order. */
  datatype Value = Str(s: string) | Arr(entries: seq<(string, Value)>)

  /** PHP's truthiness of a string: only "" and "0" are falsy. */
  predicate StrTruthy(s: string) {
    s != "" && s != "0"
  }

  /** PHP's truthiness of a value, as used by `!`, `?:` and `empty()`:
      an array is truthy exactly when it has an entry. */
  predicate Truthy(v: Value) {
    match v
    case Str(s) => StrTruthy(s)
    case Arr(e) => |e| > 0
  }

  function Keys<V>(a: seq<(string, V)>): (ks: seq<string>)
    ensures |ks| == |a|
    ensures forall i :: 0 <= i < |a| ==> ks[i] == a[i].0
  {
    if a == [] then [] else [a[0].0] + Keys(a[1..])
  }

  predicate Distinct(s: seq<string>) {
    forall i, j :: 0 <= i < j < |s| ==> s[i] != s[j]
  }

  /** `$a[$k]` on an array: the value of the first entry with key k, or None
      (PHP's null) when there is none. */
  function Find<V>(a: seq<(string, V)>, k: string): (r: Option<V>)
    ensures r.None? <==> k !in Keys(a)
    ensures r.Some? ==> exists i :: 0 <= i < |a| && a[i] == (k, r.value)
  {
    if a == [] then None
    else if a[0].0 == k then Some(a[0].1)
    else Find(a[1..], k)
  }

  /** `$a[$k] = $v`: replaces the value of the entry with key k where it
      stands, or appends (k, v) when k is new. */
  function Put<V>(a: seq<(string, V)>, k: string, v: V): seq<(string, V)> {
    if a == [] then [(k, v)]
    else if a[0].0 == k then [(k, v)] + a[1..]
    else [a[0]] + Put(a[1..], k, v)
  }

  /** Assigning to an existing key keeps the keys as they are; a new key
      is appended as a new last entry. */
  lemma {:induction false} KeysPut<V>(a: seq<(string, V)>, k: string, v: V)
    ensures Keys(Put(a, k, v)) == if k in Keys(a) then Keys(a) else Keys(a) + [k]
    ensures k !in Keys(a) ==> Put(a, k, v) == a + [(k, v)]
  {
    if a != [] && a[0].0 != k {
      KeysPut(a[1..], k, v);
      var r := Put(a, k, v);
      assert Keys(r) == [a[0].0] + Keys(Put(a[1..], k, v));
      assert Keys(a) == [a[0].0] + Keys(a[1..]);
    }
  }

  /** After `$a[$k] = $v`, `$a[$k]` is v and every other key reads as before. */
  lemma {:induction false} FindPut<V>(a: seq<(string, V)>, k: string, v: V, j: string)
    ensures Find(Put(a, k, v), j) == if j == k then Some(v) else Find(a, j)
  {
    if a != [] && a[0].0 != k {
      FindPut(a[1..], k, v, j);
    }
  }

  /** Assigning twice to one key leaves the second value. */
  lemma {:induction false} PutPut<V>(a: seq<(string, V)>, k: string, v: V, w: V)
    ensures Put(Put(a, k, v), k, w) == Put(a, k, w)
  {
    if a != [] && a[0].0 != k {
      PutPut(a[1..], k, v, w);
      assert Put(a, k, v)[1..] == Put(a[1..], k, v);
    }
  }

  /** `foreach ($keys as $k) { $a[$k] = f($k); }` starting from base. */
  function PutEach<V>(base: seq<(string, V)>, keys: seq<string>, f: string -> V): seq<(string, V)> {
    if keys == [] then base
    else
      var k := keys[|keys| - 1];
      Put(PutEach(base, keys[..|keys| - 1], f), k, f(k))
  }

  /** After the loop every key of the loop reads as f of itself, and every
      other key as it did before. */
  lemma {:induction false} FindPutEach<V>(base: seq<(string, V)>, keys: seq<string>, f: string -> V, k: string)
    ensures Find(PutEach(base, keys, f), k) == if k in keys then Some(f(k)) else Find(base, k)
  {
    if keys != [] {
      var init := keys[..|keys| - 1];
      var last := keys[|keys| - 1];
      assert keys == init + [last];
      FindPutEach(base, init, f, k);
      FindPut(PutEach(base, init, f), last, f(last), k);
    }
  }

  /** Starting from an empty array, the keys come out once each, in the
      order of their first assignment. */
  lemma {:induction false} KeysPutEach<V>(keys: seq<string>, f: string -> V)
    ensures Keys(PutEach([], keys, f)) == Dedup(keys)
  {
    if keys != [] {
      var init := keys[..|keys| - 1];
      var last := keys[|keys| - 1];
      KeysPutEach(init, f);
      var r := PutEach([], init, f);
      KeysPut(r, last, f(last));
      assert last in Keys(r) <==> last in Dedup(init);
    }
  }

  /** With distinct keys and an empty start, the loop yields exactly one
      entry per key, in the order of the keys. */
  lemma {:induction false} PutEachDistinct<V>(keys: seq<string>, f: string -> V)
    requires Distinct(keys)
    ensures |PutEach([], keys, f)| == |keys|
    ensures forall i :: 0 <= i < |keys| ==> PutEach([], keys, f)[i] == (keys[i], f(keys[i]))
  {
    if keys != [] {
      var init := keys[..|keys| - 1];
      var last := keys[|keys| - 1];
      PutEachDistinct(init, f);
      KeysPutEach(init, f);
      DedupDistinct(init);
      assert last !in init;
      KeysPut(PutEach([], init, f), last, f(last));
      assert PutEach([], keys, f) == PutEach([], init, f) + [(last, f(last))];
    }
  }

  /** Keys as a set: the keys of a sequence of entries, first occurrences
      kept, in order of first assignment. */
  function Dedup(s: seq<string>): (r: seq<string>)
    ensures Distinct(r)
    ensures forall x :: x in r <==> x in s
  {
    if s == [] then []
    else
      var p := Dedup(s[..|s| - 1]);
      var x := s[|s| - 1];
      assert forall y :: y in s <==> y in s[..|s| - 1] || y == x by {
        assert s == s[..|s| - 1] + [x];
      }
      if x in p then p else p + [x]
  }

  lemma {:induction false} DedupDistinct(s: seq<string>)
    requires Distinct(s)
    ensures Dedup(s) == s
  {
    if s != [] {
      DedupDistinct(s[..|s| - 1]);
      assert s[|s| - 1] !in s[..|s| - 1];
    }
  }
}
