/** Sequence helpers shared by the model: duplicate-free lists built the way the
    source builds them (`if (!list.contains(x)) list.add(x)`), filters and sums. */
module Seqs {

  /** The elements of `s`, as a set. */
  function Elems<T>(s: seq<T>): set<T>
  {
    set x | x in s
  }

  /** No element occurs twice. */
  predicate NoDups<T(==)>(s: seq<T>)
  {
    forall i, j :: 0 <= i < j < |s| ==> s[i] != s[j]
  }

  /** The position of the first occurrence of `x` in `s` (Java's `indexOf`),
      or -1 when `x` does not occur. */
  function IndexOf<T(==)>(s: seq<T>, x: T): (k: int)
    ensures -1 <= k < |s|
    ensures k == -1 <==> x !in s
    ensures 0 <= k ==> s[k] == x && forall i :: 0 <= i < k ==> s[i] != x
  {
    if |s| == 0 then -1
    else if s[0] == x then 0
    else
      var k := IndexOf(s[1..], x);
      if k == -1 then -1 else k + 1
  }

  /** Appends, in order, each element of `s` that `acc` does not hold yet. */
  function AppendUnique<T(==)>(acc: seq<T>, s: seq<T>): seq<T>
    decreases |s|
  {
    if |s| == 0 then acc
    else AppendUnique(if s[0] in acc then acc else acc + [s[0]], s[1..])
  }

  /** The distinct elements of `s`, in order of first occurrence. */
  function Dedup<T(==)>(s: seq<T>): seq<T>
  {
    AppendUnique([], s)
  }

  lemma {:induction false} AppendUniqueSpec<T>(acc: seq<T>, s: seq<T>)
    requires NoDups(acc)
    ensures NoDups(AppendUnique(acc, s))
    ensures |acc| <= |AppendUnique(acc, s)| && AppendUnique(acc, s)[..|acc|] == acc
    ensures Elems(AppendUnique(acc, s)) == Elems(acc) + Elems(s)
  {
    AppendUniqueKeeps(acc, s);
    AppendUniqueElems(acc, s);
  }

  /** The accumulator stays a prefix and the result stays duplicate-free. */
  lemma {:induction false} AppendUniqueKeeps<T>(acc: seq<T>, s: seq<T>)
    requires NoDups(acc)
    ensures NoDups(AppendUnique(acc, s))
    ensures |acc| <= |AppendUnique(acc, s)| && AppendUnique(acc, s)[..|acc|] == acc
    decreases |s|
  {
    if |s| > 0 {
      var acc' := if s[0] in acc then acc else acc + [s[0]];
      AppendUniqueKeeps(acc', s[1..]);
      var r := AppendUnique(acc', s[1..]);
      assert r == AppendUnique(acc, s);
      assert acc'[..|acc|] == acc;
      assert r[..|acc|] == r[..|acc'|][..|acc|];
    }
  }

  /** The result holds the accumulator's elements and those of `s`, and no others. */
  lemma {:induction false} AppendUniqueElems<T>(acc: seq<T>, s: seq<T>)
    ensures Elems(AppendUnique(acc, s)) == Elems(acc) + Elems(s)
    decreases |s|
  {
    if |s| > 0 {
      var acc' := if s[0] in acc then acc else acc + [s[0]];
      AppendUniqueElems(acc', s[1..]);
      assert s == [s[0]] + s[1..];
      assert Elems(s) == {s[0]} + Elems(s[1..]);
      assert Elems(acc') == Elems(acc) + {s[0]};
    }
  }

  /** Dedup keeps every element once: it is duplicate-free and has the same elements. */
  lemma {:induction false} DedupSpec<T>(s: seq<T>)
    ensures NoDups(Dedup(s))
    ensures Elems(Dedup(s)) == Elems(s)
  {
    AppendUniqueSpec([], s);
  }

  /** The first element of `s` comes first in Dedup(s), and only the empty list dedups to []. */
  lemma {:induction false} DedupHead<T>(s: seq<T>)
    ensures |Dedup(s)| == 0 <==> |s| == 0
    ensures |s| > 0 ==> Dedup(s)[0] == s[0]
  {
    if |s| > 0 {
      var e: seq<T> := [];
      assert s[0] !in e && e + [s[0]] == [s[0]];
      assert Dedup(s) == AppendUnique([s[0]], s[1..]);
      AppendUniqueSpec([s[0]], s[1..]);
      assert Dedup(s)[..1] == [s[0]];
    }
  }

  /** Dedup(s) has exactly one element iff s is non-empty and all its elements are equal. */
  lemma {:induction false} DedupSingleton<T>(s: seq<T>)
    ensures |Dedup(s)| == 1 <==> (|s| > 0 && forall i :: 0 <= i < |s| ==> s[i] == s[0])
  {
    DedupSpec(s);
    DedupHead(s);
    var d := Dedup(s);
    if |s| > 0 && forall i :: 0 <= i < |s| ==> s[i] == s[0] {
      var e: seq<T> := [];
      assert s[0] !in e && e + [s[0]] == [s[0]];
      assert d == AppendUnique([s[0]], s[1..]);
      AppendUniqueNothingNew([s[0]], s[1..]);
    }
    if |d| == 1 {
      assert Elems(d) == {d[0]};
      forall i | 0 <= i < |s| ensures s[i] == s[0] {
        assert s[i] in Elems(s);
        assert s[i] in Elems(d);
      }
    }
  }

  /** A duplicate-free list has as many elements as its set. */
  lemma {:induction false} NoDupsCard<T>(s: seq<T>)
    requires NoDups(s)
    ensures |Elems(s)| == |s|
  {
    if |s| > 0 {
      NoDupsCard(s[1..]);
      assert s == [s[0]] + s[1..];
      assert Elems(s) == {s[0]} + Elems(s[1..]);
      assert s[0] !in Elems(s[1..]);
    } else {
      assert Elems(s) == {};
    }
  }

  /** Appending elements that are all present already changes nothing. */
  lemma {:induction false} AppendUniqueNothingNew<T>(acc: seq<T>, s: seq<T>)
    requires forall i :: 0 <= i < |s| ==> s[i] in acc
    ensures AppendUnique(acc, s) == acc
    decreases |s|
  {
    if |s| > 0 {
      AppendUniqueNothingNew(acc, s[1..]);
    }
  }

  /** The elements of `s` that satisfy `f`, in order (a stream `filter`). */
  function Filter<T>(s: seq<T>, f: T -> bool): seq<T>
  {
    if |s| == 0 then []
    else (if f(s[0]) then [s[0]] else []) + Filter(s[1..], f)
  }

  /** Filtering keeps exactly the satisfying elements, each as often as in `s`. */
  lemma {:induction false} FilterCount<T>(s: seq<T>, f: T -> bool, x: T)
    ensures multiset(Filter(s, f))[x] == if f(x) then multiset(s)[x] else 0
  {
    if |s| > 0 {
      FilterCount(s[1..], f, x);
      assert s == [s[0]] + s[1..];
    }
  }

  /** Filtering distributes over concatenation, so it keeps the input order. */
  lemma {:induction false} FilterAppend<T>(a: seq<T>, b: seq<T>, f: T -> bool)
    ensures Filter(a + b, f) == Filter(a, f) + Filter(b, f)
  {
    if |a| > 0 {
      FilterAppend(a[1..], b, f);
      assert (a + b)[0] == a[0];
      assert (a + b)[1..] == a[1..] + b;
      var h := if f(a[0]) then [a[0]] else [];
      calc {
        Filter(a + b, f);
        h + Filter(a[1..] + b, f);
        h + (Filter(a[1..], f) + Filter(b, f));
        (h + Filter(a[1..], f)) + Filter(b, f);
      }
    } else {
      assert a + b == b;
    }
  }

  /** Every element of a filter satisfies the predicate and comes from the input. */
  lemma {:induction false} FilterElems<T>(s: seq<T>, f: T -> bool)
    ensures forall x :: x in Filter(s, f) <==> x in s && f(x)
  {
    forall x ensures x in Filter(s, f) <==> x in s && f(x) {
      FilterCount(s, f, x);
    }
  }

  /** Filtering twice is filtering once by both predicates. */
  lemma {:induction false} FilterFilter<T>(s: seq<T>, f: T -> bool, g: T -> bool, h: T -> bool)
    requires forall x :: h(x) == (f(x) && g(x))
    ensures Filter(Filter(s, f), g) == Filter(s, h)
  {
    if |s| > 0 {
      FilterFilter(s[1..], f, g, h);
      var head := if f(s[0]) then [s[0]] else [];
      FilterAppend(head, Filter(s[1..], f), g);
    }
  }

  /** Removes the first occurrence of `x` (Java's `List.remove(Object)`). */
  function RemoveFirst<T(==)>(s: seq<T>, x: T): (r: seq<T>)
    ensures x in s ==> multiset(r) == multiset(s) - multiset{x}
    ensures x !in s ==> r == s
  {
    if |s| == 0 then s
    else if s[0] == x then
      assert s == [s[0]] + s[1..];
      s[1..]
    else
      var rest := RemoveFirst(s[1..], x);
      assert s == [s[0]] + s[1..];
      [s[0]] + rest
  }

  /** Only the first occurrence goes: the elements before and after it keep their order. */
  lemma {:induction false} RemoveFirstAt<T>(s: seq<T>, x: T)
    requires x in s
    ensures RemoveFirst(s, x) == s[..IndexOf(s, x)] + s[IndexOf(s, x) + 1..]
  {
    var t := s[1..];
    if s[0] == x {
      assert IndexOf(s, x) == 0;
      assert s[..0] + s[1..] == t;
    } else {
      assert x in t by {
        var i :| 0 <= i < |s| && s[i] == x;
        assert t[i - 1] == x;
      }
      var k := IndexOf(t, x);
      RemoveFirstAt(t, x);
      assert RemoveFirst(s, x) == [s[0]] + RemoveFirst(t, x);
      assert IndexOf(s, x) == k + 1;
      SpliceCons(s, k);
    }
  }

  /** Cutting element k out of the tail and putting the head back is cutting element
      k + 1 out of the whole. */
  lemma {:induction false} SpliceCons<T>(s: seq<T>, k: nat)
    requires k + 1 < |s|
    ensures [s[0]] + (s[1..][..k] + s[1..][k + 1..]) == s[..k + 1] + s[k + 2..]
  {
    var t := s[1..];
    var lhs := [s[0]] + (t[..k] + t[k + 1..]);
    var rhs := s[..k + 1] + s[k + 2..];
    forall j | 0 <= j < |lhs| ensures lhs[j] == rhs[j] {
      if j == 0 {
      } else if j <= k {
        assert lhs[j] == t[j - 1];
      } else {
        assert lhs[j] == t[j];
      }
    }
  }

  /** Removing an element just appended, which did not occur before, restores the list. */
  lemma {:induction false} RemoveFirstAppended<T>(s: seq<T>, x: T)
    requires x !in s
    ensures RemoveFirst(s + [x], x) == s
  {
    var t := s + [x];
    if |s| > 0 {
      assert t[0] == s[0] && t[1..] == s[1..] + [x];
      RemoveFirstAppended(s[1..], x);
      assert s == [s[0]] + s[1..];
    } else {
      assert t == [x];
    }
  }

  /** In a duplicate-free list an element that occurs occurs exactly once. */
  lemma {:induction false} NoDupsCount<T>(s: seq<T>, x: T)
    requires x in s
    ensures NoDups(s) ==> multiset(s)[x] == 1
  {
    if NoDups(s) {
      var i :| 0 <= i < |s| && s[i] == x;
      assert s == s[..i] + [x] + s[i + 1..];
      assert x !in s[..i] by {
        forall k | 0 <= k < i ensures s[..i][k] != x {
          assert s[..i][k] == s[k];
        }
      }
      var rest := s[i + 1..];
      forall k | 0 <= k < |rest| ensures rest[k] != x {
        assert rest[k] == s[i + 1 + k];
      }
    }
  }

  /** Sum of a list of naturals. */
  function Sum(s: seq<nat>): nat
  {
    if |s| == 0 then 0 else Sum(s[..|s|-1]) + s[|s|-1]
  }
}
