/**
 * Keeping the first record per key, the rule shared by `deduplicate_countries`
 * (parse_algorithm/parser.py) and `remove_duplicates` (super_algorithm.py); both key a
 * record by its lower-cased name. The loops that realise it live with their records
 * (`Parser.DeduplicateCountries`, `Legacy.RemoveDuplicates`).
 */
module Dedupe {

  /** The keys of the elements of `s`. */
  function KeySet<T>(s: seq<T>, key: T -> string): set<string> {
    set i | 0 <= i < |s| :: key(s[i])
  }

  /** No two elements of `s` share a key. */
  predicate DistinctKeys<T>(s: seq<T>, key: T -> string) {
    forall i, j :: 0 <= i < j < |s| ==> key(s[i]) != key(s[j])
  }

  /** No element before index `i` has the key of `s[i]`. */
  predicate IsFirstAt<T>(s: seq<T>, key: T -> string, i: nat)
    requires i < |s|
  {
    forall j :: 0 <= j < i ==> key(s[j]) != key(s[i])
  }

  /** The elements of `s`, in order, each kept unless an element with its key was kept before. */
  function FirstByKey<T>(s: seq<T>, key: T -> string): (r: seq<T>)
    ensures |r| <= |s|
  {
    if s == [] then []
    else
      var kept := FirstByKey(s[..|s| - 1], key);
      if key(s[|s| - 1]) in KeySet(kept, key) then kept else kept + [s[|s| - 1]]
  }

  /** The elements at the positions where their key occurs first, in order. */
  function FirstOccurrences<T>(s: seq<T>, key: T -> string): seq<T> {
    if s == [] then []
    else FirstOccurrences(s[..|s| - 1], key) + (if IsFirstAt(s, key, |s| - 1) then [s[|s| - 1]] else [])
  }

  /** `a` is `b` with some elements left out. */
  ghost predicate IsSubsequence<T>(a: seq<T>, b: seq<T>)
    decreases |b|
  {
    a == [] ||
    (b != [] &&
     ((a[|a| - 1] == b[|b| - 1] && IsSubsequence(a[..|a| - 1], b[..|b| - 1])) || IsSubsequence(a, b[..|b| - 1])))
  }

  lemma KeySetSnoc<T>(s: seq<T>, x: T, key: T -> string)
    ensures KeySet(s + [x], key) == KeySet(s, key) + {key(x)}
  {
    var t := s + [x];
    assert t[|s|] == x;
    assert forall i :: 0 <= i < |s| ==> t[i] == s[i];
    forall k | k in KeySet(t, key) ensures k in KeySet(s, key) + {key(x)} {
      var i :| 0 <= i < |t| && key(t[i]) == k;
      if i < |s| {
        assert key(s[i]) == k;
      }
    }
  }

  /** The result has exactly the keys of the input, each once. */
  lemma {:induction false} FirstByKeyKeys<T>(s: seq<T>, key: T -> string)
    ensures KeySet(FirstByKey(s, key), key) == KeySet(s, key)
    ensures DistinctKeys(FirstByKey(s, key), key)
  {
    if s != [] {
      var p, x := s[..|s| - 1], s[|s| - 1];
      assert s == p + [x];
      FirstByKeyKeys(p, key);
      KeySetSnoc(p, x, key);
      var kept := FirstByKey(p, key);
      if key(x) !in KeySet(kept, key) {
        KeySetSnoc(kept, x, key);
        var r := kept + [x];
        forall i, j | 0 <= i < j < |r| ensures key(r[i]) != key(r[j]) {
          if j == |kept| {
            assert key(r[i]) in KeySet(kept, key) by { assert r[i] == kept[i]; }
          } else {
            assert r[i] == kept[i] && r[j] == kept[j];
          }
        }
      }
    }
  }

  /** A key is new to the prefix exactly when it is new to what was kept of the prefix. */
  lemma LastIsFirst<T>(s: seq<T>, key: T -> string)
    requires s != []
    ensures IsFirstAt(s, key, |s| - 1) <==> key(s[|s| - 1]) !in KeySet(FirstByKey(s[..|s| - 1], key), key)
  {
    var p := s[..|s| - 1];
    FirstByKeyKeys(p, key);
    if !IsFirstAt(s, key, |s| - 1) {
      var j :| 0 <= j < |s| - 1 && key(s[j]) == key(s[|s| - 1]);
      assert key(p[j]) in KeySet(p, key);
    }
  }

  /** One record per distinct key, the first occurrence, in first-occurrence order. */
  lemma {:induction false} FirstByKeyIsFirstOccurrences<T>(s: seq<T>, key: T -> string)
    ensures FirstByKey(s, key) == FirstOccurrences(s, key)
  {
    if s != [] {
      FirstByKeyIsFirstOccurrences(s[..|s| - 1], key);
      LastIsFirst(s, key);
    }
  }

  /** The result keeps elements of the input, in the input's order. */
  lemma {:induction false} FirstByKeyIsSubsequence<T>(s: seq<T>, key: T -> string)
    ensures IsSubsequence(FirstByKey(s, key), s)
  {
    if s != [] {
      var p := s[..|s| - 1];
      FirstByKeyIsSubsequence(p, key);
      var kept := FirstByKey(p, key);
      if key(s[|s| - 1]) in KeySet(kept, key) {
        SubsequenceOfLonger(kept, p, s[|s| - 1]);
        assert s == p + [s[|s| - 1]];
      } else {
        var r := kept + [s[|s| - 1]];
        assert r[..|r| - 1] == kept && s[..|s| - 1] == p;
      }
    }
  }

  lemma {:induction false} SubsequenceOfLonger<T>(a: seq<T>, b: seq<T>, x: T)
    requires IsSubsequence(a, b)
    ensures IsSubsequence(a, b + [x])
  {
    assert (b + [x])[..|b|] == b;
  }

  /** Keys already distinct: nothing is dropped. */
  lemma {:induction false} FirstByKeyOfDistinct<T>(s: seq<T>, key: T -> string)
    requires DistinctKeys(s, key)
    ensures FirstByKey(s, key) == s
  {
    if s != [] {
      var p, x := s[..|s| - 1], s[|s| - 1];
      assert DistinctKeys(p, key) by {
        forall i, j | 0 <= i < j < |p| ensures key(p[i]) != key(p[j]) {
          assert p[i] == s[i] && p[j] == s[j];
        }
      }
      FirstByKeyOfDistinct(p, key);
      assert IsFirstAt(s, key, |s| - 1);
      LastIsFirst(s, key);
      assert FirstByKey(s, key) == p + [x];
      assert s == p + [x];
    }
  }

  /** Deduplicating twice is deduplicating once. */
  lemma FirstByKeyIdempotent<T>(s: seq<T>, key: T -> string)
    ensures FirstByKey(FirstByKey(s, key), key) == FirstByKey(s, key)
  {
    FirstByKeyKeys(s, key);
    FirstByKeyOfDistinct(FirstByKey(s, key), key);
  }

  /** Extending the input by one element extends the result by it or leaves it alone. */
  lemma FirstByKeySnoc<T>(s: seq<T>, x: T, key: T -> string)
    ensures FirstByKey(s + [x], key)
      == if key(x) in KeySet(FirstByKey(s, key), key) then FirstByKey(s, key) else FirstByKey(s, key) + [x]
  {
    assert (s + [x])[..|s|] == s;
  }
}
