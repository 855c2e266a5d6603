/** Ordering records by a list of string fields, the way the `sorter`
    callbacks of `KU.Transfer` do: compare the first field with JavaScript's
    `<` and `>`, and look at the next field only on a tie. */
module Sorting {
  import JsText

  /** The lexicographic comparison of two field lists, answering -1, 0 or 1
      like a `sort` callback. A list that runs out first is the smaller. */
  function KeyCompare(a: seq<string>, b: seq<string>): (r: int)
    ensures -1 <= r <= 1
    decreases |a|
  {
    if |a| == 0 && |b| == 0 then 0
    else if |a| == 0 then -1
    else if |b| == 0 then 1
    else if JsText.Less(a[0], b[0]) then -1
    else if JsText.Less(b[0], a[0]) then 1
    else KeyCompare(a[1..], b[1..])
  }

  /** Swapping the arguments flips the answer. */
  lemma {:induction false} KeyCompareAntisymmetric(a: seq<string>, b: seq<string>)
    ensures KeyCompare(b, a) == -KeyCompare(a, b)
    decreases |a|
  {
    if |a| > 0 && |b| > 0 {
      JsText.LessAsymmetric(a[0], b[0]);
      if !JsText.Less(a[0], b[0]) && !JsText.Less(b[0], a[0]) {
        KeyCompareAntisymmetric(a[1..], b[1..]);
      }
    }
  }

  /** The answer is 0 exactly when every field is equal. */
  lemma {:induction false} KeyCompareZero(a: seq<string>, b: seq<string>)
    ensures KeyCompare(a, b) == 0 <==> a == b
    decreases |a|
  {
    if |a| > 0 && |b| > 0 {
      JsText.LessTotal(a[0], b[0]);
      JsText.LessIrreflexive(a[0]);
      if a[0] == b[0] {
        KeyCompareZero(a[1..], b[1..]);
        assert a == [a[0]] + a[1..] && b == [b[0]] + b[1..];
      } else {
        assert a != b;
      }
    }
  }

  /** "Not after" is transitive. */
  lemma {:induction false} KeyCompareTransitive(a: seq<string>, b: seq<string>, c: seq<string>)
    requires KeyCompare(a, b) <= 0 && KeyCompare(b, c) <= 0
    ensures KeyCompare(a, c) <= 0
    decreases |a|
  {
    if |a| > 0 && |b| > 0 && |c| > 0 {
      JsText.LessTotal(a[0], b[0]);
      JsText.LessTotal(b[0], c[0]);
      if JsText.Less(a[0], b[0]) && JsText.Less(b[0], c[0]) {
        JsText.LessTransitive(a[0], b[0], c[0]);
        JsText.LessAsymmetric(a[0], c[0]);
      } else if JsText.Less(a[0], b[0]) {
        JsText.LessAsymmetric(a[0], b[0]);
      } else if JsText.Less(b[0], c[0]) {
        JsText.LessAsymmetric(b[0], c[0]);
      } else {
        JsText.LessIrreflexive(a[0]);
        KeyCompareTransitive(a[1..], b[1..], c[1..]);
      }
    }
  }

  /** Every record is ordered no later than every record after it. */
  predicate Sorted<T>(s: seq<T>, key: T -> seq<string>) {
    forall i, j :: 0 <= i < j < |s| ==> KeyCompare(key(s[i]), key(s[j])) <= 0
  }

  /** Puts `x` in front of the first record it is not after. */
  function Insert<T>(x: T, s: seq<T>, key: T -> seq<string>): seq<T> {
    if |s| == 0 || KeyCompare(key(x), key(s[0])) <= 0 then [x] + s
    else [s[0]] + Insert(x, s[1..], key)
  }

  /** The records of `s` in comparator order; records that compare equal
      keep their relative order. */
  function Sort<T>(s: seq<T>, key: T -> seq<string>): seq<T> {
    if |s| == 0 then [] else Insert(s[0], Sort(s[1..], key), key)
  }

  lemma {:induction false} InsertPermutes<T>(x: T, s: seq<T>, key: T -> seq<string>)
    ensures multiset(Insert(x, s, key)) == multiset(s) + multiset{x}
  {
    if |s| > 0 && KeyCompare(key(x), key(s[0])) > 0 {
      InsertPermutes(x, s[1..], key);
      assert s == [s[0]] + s[1..];
    }
  }

  /** A record ordered no later than every record of a sorted list can be
      put in front of it. */
  lemma ConsSorted<T>(y: T, t: seq<T>, key: T -> seq<string>)
    requires Sorted(t, key)
    requires forall j :: 0 <= j < |t| ==> KeyCompare(key(y), key(t[j])) <= 0
    ensures Sorted([y] + t, key)
  {
    var r := [y] + t;
    forall i, j | 0 <= i < j < |r|
      ensures KeyCompare(key(r[i]), key(r[j])) <= 0
    {
      assert r[j] == t[j - 1];
      if i > 0 {
        assert r[i] == t[i - 1];
      }
    }
  }

  /** A record ordered no earlier than every record of a sorted list can be
      put after it. */
  lemma SnocSorted<T>(t: seq<T>, y: T, key: T -> seq<string>)
    requires Sorted(t, key)
    requires forall i :: 0 <= i < |t| ==> KeyCompare(key(t[i]), key(y)) <= 0
    ensures Sorted(t + [y], key)
  {
    var r := t + [y];
    forall i, j | 0 <= i < j < |r|
      ensures KeyCompare(key(r[i]), key(r[j])) <= 0
    {
      assert r[i] == t[i];
      if j < |t| {
        assert r[j] == t[j];
      }
    }
  }

  /** Every prefix of a sorted list is sorted. */
  lemma SortedPrefix<T>(s: seq<T>, n: nat, key: T -> seq<string>)
    requires Sorted(s, key) && n <= |s|
    ensures Sorted(s[..n], key)
  {
    forall i, j | 0 <= i < j < n
      ensures KeyCompare(key(s[..n][i]), key(s[..n][j])) <= 0
    {
      assert s[..n][i] == s[i] && s[..n][j] == s[j];
    }
  }

  /** Every record of an insertion is `x` or a record of `s`. */
  lemma MemberOfInsert<T>(x: T, s: seq<T>, key: T -> seq<string>, j: nat)
    requires j < |Insert(x, s, key)|
    ensures Insert(x, s, key)[j] == x || exists k :: 0 <= k < |s| && s[k] == Insert(x, s, key)[j]
  {
    var t := Insert(x, s, key);
    InsertPermutes(x, s, key);
    assert t[j] in multiset(t);
    if t[j] != x {
      assert t[j] in multiset(s);
      assert t[j] in s;
    }
  }

  lemma {:induction false} InsertSorted<T>(x: T, s: seq<T>, key: T -> seq<string>)
    requires Sorted(s, key)
    ensures Sorted(Insert(x, s, key), key)
  {
    if |s| == 0 {
    } else if KeyCompare(key(x), key(s[0])) <= 0 {
      forall j | 0 <= j < |s|
        ensures KeyCompare(key(x), key(s[j])) <= 0
      {
        if j > 0 {
          KeyCompareTransitive(key(x), key(s[0]), key(s[j]));
        }
      }
      ConsSorted(x, s, key);
    } else {
      var rest := s[1..];
      var t := Insert(x, rest, key);
      InsertSorted(x, rest, key);
      KeyCompareAntisymmetric(key(x), key(s[0]));
      forall j | 0 <= j < |t|
        ensures KeyCompare(key(s[0]), key(t[j])) <= 0
      {
        MemberOfInsert(x, rest, key, j);
        if t[j] != x {
          var k :| 0 <= k < |rest| && rest[k] == t[j];
          assert s[k + 1] == t[j];
        }
      }
      ConsSorted(s[0], t, key);
      assert Insert(x, s, key) == [s[0]] + t;
    }
  }

  /** Sorting only rearranges the records. */
  lemma {:induction false} SortPermutes<T>(s: seq<T>, key: T -> seq<string>)
    ensures multiset(Sort(s, key)) == multiset(s)
    ensures |Sort(s, key)| == |s|
  {
    if |s| > 0 {
      SortPermutes(s[1..], key);
      InsertPermutes(s[0], Sort(s[1..], key), key);
      assert s == [s[0]] + s[1..];
    }
  }

  /** Sorting leaves the records in comparator order. */
  lemma {:induction false} SortSorted<T>(s: seq<T>, key: T -> seq<string>)
    ensures Sorted(Sort(s, key), key)
  {
    if |s| > 0 {
      SortSorted(s[1..], key);
      InsertSorted(s[0], Sort(s[1..], key), key);
    }
  }

  /** A sorted permutation of the input: the two facts a `sort` call
      promises. */
  lemma SortSpec<T>(s: seq<T>, key: T -> seq<string>)
    ensures multiset(Sort(s, key)) == multiset(s) && |Sort(s, key)| == |s|
    ensures Sorted(Sort(s, key), key)
  {
    SortPermutes(s, key);
    SortSorted(s, key);
  }
}
