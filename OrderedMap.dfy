/**
  The `std::map<string, Sensor *>` of main.cpp:120, as a sequence of key/value
  pairs kept in strictly ascending key order. Iterating a `std::map` visits its
  entries in that order, `operator[]` assigns in place (inserting the key when it
  is new, overwriting its value when it is not), and `contains`/`at` look a key up.
  `ToMap` gives the abstract mapping.

  Keys are ordered as `std::string::operator<` orders them: lexicographically,
  character by character, a proper prefix before its extensions.
*/
module OrderedMap {

  datatype Option<T> = None | Some(value: T)

  /** Lexicographic order on strings: a string never precedes itself, and a proper
      prefix precedes each of its extensions. */
  predicate Less(a: string, b: string)
  {
    if a == [] then b != []
    else if b == [] then false
    else if a[0] != b[0] then a[0] < b[0]
    else Less(a[1..], b[1..])
  }

  lemma {:induction false} LessIrreflexive(a: string)
    ensures !Less(a, a)
  {
    if a != [] { LessIrreflexive(a[1..]); }
  }

  lemma {:induction false} LessPrefix(a: string, b: string)
    requires |a| < |b| && a == b[..|a|]
    ensures Less(a, b)
  {
    if a != [] {
      assert a[1..] == b[1..][..|a| - 1];
      LessPrefix(a[1..], b[1..]);
    }
  }

  lemma {:induction false} LessTransitive(a: string, b: string, c: string)
    requires Less(a, b) && Less(b, c)
    ensures Less(a, c)
  {
    if a != [] && b != [] && c != [] && a[0] == b[0] == c[0] {
      LessTransitive(a[1..], b[1..], c[1..]);
    }
  }

  lemma {:induction false} LessTotal(a: string, b: string)
    requires a != b
    ensures Less(a, b) || Less(b, a)
  {
    if a != [] && b != [] && a[0] == b[0] {
      assert a == [a[0]] + a[1..] && b == [b[0]] + b[1..];
      LessTotal(a[1..], b[1..]);
    }
  }

  /** Keys strictly ascending: the order in which a `std::map` is iterated. */
  predicate Sorted<V>(s: seq<(string, V)>)
  {
    forall i, j :: 0 <= i < j < |s| ==> Less(s[i].0, s[j].0)
  }

  /** The mapping the sequence denotes (the first pair for a key wins, though a
      sorted sequence has only one). */
  function ToMap<V>(s: seq<(string, V)>): map<string, V>
  {
    if s == [] then map[] else ToMap(s[1..])[s[0].0 := s[0].1]
  }

  /** The keys of `ToMap(s)` are exactly the keys that occur in `s`. */
  lemma {:induction false} ToMapKeys<V>(s: seq<(string, V)>, k: string)
    ensures k in ToMap(s) <==> exists i :: 0 <= i < |s| && s[i].0 == k
  {
    if s != [] {
      ToMapKeys(s[1..], k);
      if k != s[0].0 && k in ToMap(s[1..]) {
        var i :| 0 <= i < |s[1..]| && s[1..][i].0 == k;
        assert s[i + 1].0 == k;
      }
      if exists i :: 0 <= i < |s| && s[i].0 == k {
        var i :| 0 <= i < |s| && s[i].0 == k;
        if i > 0 { assert s[1..][i - 1].0 == k; }
      }
    }
  }

  /** Every entry of `ToMap(s)` is a pair of `s`. */
  lemma {:induction false} ToMapEntry<V>(s: seq<(string, V)>, k: string)
    requires k in ToMap(s)
    ensures exists i :: 0 <= i < |s| && s[i] == (k, ToMap(s)[k])
  {
    if s[0].0 != k {
      ToMapEntry(s[1..], k);
      var i :| 0 <= i < |s[1..]| && s[1..][i] == (k, ToMap(s[1..])[k]);
      assert s[i + 1] == (k, ToMap(s)[k]);
    }
  }

  /** In a sorted sequence, each pair is what `ToMap` holds for its key, and there
      are as many entries in the mapping as pairs in the sequence. */
  lemma {:induction false} SortedToMap<V>(s: seq<(string, V)>)
    requires Sorted(s)
    ensures |ToMap(s)| == |s|
    ensures forall i :: 0 <= i < |s| ==> s[i].0 in ToMap(s) && ToMap(s)[s[i].0] == s[i].1
  {
    if s != [] {
      var tail := s[1..];
      assert Sorted(tail);
      SortedToMap(tail);
      ToMapKeys(tail, s[0].0);
      forall i | 0 <= i < |tail| ensures tail[i].0 != s[0].0 {
        assert Less(s[0].0, s[i + 1].0);
        LessIrreflexive(s[0].0);
      }
      assert s[0].0 !in ToMap(tail);
      forall i | 0 < i < |s| ensures s[i].0 != s[0].0 && ToMap(s)[s[i].0] == s[i].1 {
        assert s[i] == tail[i - 1];
      }
    }
  }

  /** `contains` followed by `at`: the value stored under `k`, if any. */
  function Find<V>(s: seq<(string, V)>, k: string): (r: Option<V>)
    ensures r.Some? <==> k in ToMap(s)
    ensures r.Some? ==> r.value == ToMap(s)[k]
  {
    if s == [] then None
    else if s[0].0 == k then Some(s[0].1)
    else Find(s[1..], k)
  }

  /** `m[k] = v`: overwrite the value of `k` in place, or insert `k` where the order puts it. */
  function Put<V>(s: seq<(string, V)>, k: string, v: V): (r: seq<(string, V)>)
    ensures ToMap(r) == ToMap(s)[k := v]
    ensures forall i :: 0 <= i < |r| ==> r[i].0 == k || exists j :: 0 <= j < |s| && s[j].0 == r[i].0
    ensures Sorted(s) ==> Sorted(r)
  {
    if s == [] then [(k, v)]
    else if s[0].0 == k then
      var r := [(k, v)] + s[1..];
      assert forall i :: 0 < i < |r| ==> r[i] == s[i];
      r
    else if Less(k, s[0].0) then
      var r := [(k, v)] + s;
      InsertFrontSorted(s, k, v);
      assert forall i :: 0 < i < |r| ==> r[i] == s[i - 1];
      r
    else
      var rest := Put(s[1..], k, v);
      var r := [s[0]] + rest;
      PutKeysBehind(s, k, rest);
      assert Sorted(s) ==> Sorted(s[1..]);
      InsertBehindSorted(s, k, rest);
      r
  }

  lemma InsertFrontSorted<V>(s: seq<(string, V)>, k: string, v: V)
    requires s != [] && Less(k, s[0].0)
    ensures Sorted(s) ==> Sorted([(k, v)] + s)
  {
    if Sorted(s) {
      var r := [(k, v)] + s;
      forall j | 0 < j < |r| ensures Less(k, r[j].0) {
        if j > 1 { LessTransitive(k, s[0].0, s[j - 1].0); }
      }
    }
  }

  lemma PutKeysBehind<V>(s: seq<(string, V)>, k: string, rest: seq<(string, V)>)
    requires s != []
    requires forall i :: 0 <= i < |rest| ==> rest[i].0 == k || exists j :: 0 <= j < |s[1..]| && s[1..][j].0 == rest[i].0
    ensures forall i :: 0 <= i < |[s[0]] + rest| ==>
              ([s[0]] + rest)[i].0 == k || exists j :: 0 <= j < |s| && s[j].0 == ([s[0]] + rest)[i].0
  {
    var r := [s[0]] + rest;
    forall i | 0 <= i < |r| ensures r[i].0 == k || exists j :: 0 <= j < |s| && s[j].0 == r[i].0 {
      if i == 0 {
        assert s[0].0 == r[i].0;
      } else if rest[i - 1].0 != k {
        var j :| 0 <= j < |s[1..]| && s[1..][j].0 == rest[i - 1].0;
        assert s[j + 1].0 == r[i].0;
      }
    }
  }

  lemma InsertBehindSorted<V>(s: seq<(string, V)>, k: string, rest: seq<(string, V)>)
    requires s != [] && k != s[0].0 && !Less(k, s[0].0)
    requires forall i :: 0 <= i < |rest| ==> rest[i].0 == k || exists j :: 0 <= j < |s[1..]| && s[1..][j].0 == rest[i].0
    ensures Sorted(s) && Sorted(rest) ==> Sorted([s[0]] + rest)
  {
    if Sorted(s) && Sorted(rest) {
      SortedBehind(s, k, rest);
    }
  }

  lemma SortedBehind<V>(s: seq<(string, V)>, k: string, rest: seq<(string, V)>)
    requires Sorted(s) && s != [] && k != s[0].0 && !Less(k, s[0].0)
    requires Sorted(rest)
    requires forall i :: 0 <= i < |rest| ==> rest[i].0 == k || exists j :: 0 <= j < |s[1..]| && s[1..][j].0 == rest[i].0
    ensures Sorted([s[0]] + rest)
  {
    LessTotal(k, s[0].0);
    forall j | 0 <= j < |rest| ensures Less(s[0].0, rest[j].0) {
      if rest[j].0 != k {
        var m :| 0 <= m < |s[1..]| && s[1..][m].0 == rest[j].0;
        assert s[m + 1].0 == rest[j].0;
      }
    }
    var r := [s[0]] + rest;
    forall a, b | 0 <= a < b < |r| ensures Less(r[a].0, r[b].0) {
      if a > 0 { assert r[a] == rest[a - 1] && r[b] == rest[b - 1]; }
    }
  }
}
