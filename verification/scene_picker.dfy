/** The scene picker dialog: scene groups sorted by name with Java's `String.compareTo`
    (UTF-16 code-unit order), a single-choice list of their names, and OK and Cancel
    buttons. */
module ScenePicker {
  import opened Wrappers
  import opened SceneGroups

  /** The UTF-16 code units Java stores for one character: the character itself below
      U+10000, otherwise a high surrogate followed by a low surrogate. */
  function Units(c: char): (r: seq<int>)
    ensures 1 <= |r| <= 2 && 0 <= r[0] < 0x10000
    ensures |r| == 2 <==> 0xD800 <= r[0] < 0xDC00
    ensures |r| == 2 ==> 0xDC00 <= r[1] < 0xE000
  {
    var v := c as int;
    if v < 0x10000 then [v]
    else [0xD800 + (v - 0x10000) / 0x400, 0xDC00 + (v - 0x10000) % 0x400]
  }

  /** A string as the sequence of UTF-16 code units a Java `String` holds. */
  function Utf16(s: string): (r: seq<int>)
    ensures |s| <= |r| <= 2 * |s|
  {
    if |s| == 0 then [] else Units(s[0]) + Utf16(s[1..])
  }

  /** Different characters have different code units. */
  lemma {:induction false} UnitsInjective(c: char, d: char)
    requires Units(c) == Units(d)
    ensures c == d
  {
    var v, w := c as int, d as int;
    if v >= 0x10000 {
      assert w >= 0x10000;
      assert v == 0x10000 + (Units(c)[0] - 0xD800) * 0x400 + (Units(c)[1] - 0xDC00);
      assert w == 0x10000 + (Units(d)[0] - 0xD800) * 0x400 + (Units(d)[1] - 0xDC00);
    }
  }

  /** Different strings have different UTF-16 encodings. */
  lemma {:induction false} Utf16Injective(a: string, b: string)
    requires Utf16(a) == Utf16(b)
    ensures a == b
  {
    if |a| > 0 && |b| > 0 {
      var ua, ub := Units(a[0]), Units(b[0]);
      assert Utf16(a) == ua + Utf16(a[1..]) && Utf16(b) == ub + Utf16(b[1..]);
      assert |ua| == |ub| by {
        assert ua[0] == Utf16(a)[0] == Utf16(b)[0] == ub[0];
      }
      assert ua == Utf16(a)[..|ua|] == Utf16(b)[..|ub|] == ub;
      UnitsInjective(a[0], b[0]);
      assert Utf16(a[1..]) == Utf16(a)[|ua|..] == Utf16(b)[|ub|..] == Utf16(b[1..]);
      Utf16Injective(a[1..], b[1..]);
      assert a == [a[0]] + a[1..] && b == [b[0]] + b[1..];
    }
  }

  /** Java's comparison of code-unit sequences: the difference of the first differing
      units, or else the difference of the lengths. */
  function CompareUnits(a: seq<int>, b: seq<int>): int
  {
    if |a| == 0 || |b| == 0 then |a| - |b|
    else if a[0] != b[0] then a[0] - b[0]
    else CompareUnits(a[1..], b[1..])
  }

  /** Java's `String.compareTo`, which compares UTF-16 code units rather than characters. */
  function CompareTo(a: string, b: string): int
  {
    CompareUnits(Utf16(a), Utf16(b))
  }

  /** `a` sorts no later than `b`. */
  predicate NameLe(a: string, b: string)
  {
    CompareTo(a, b) <= 0
  }

  /** Code-unit comparison is antisymmetric and is zero exactly on equal sequences. */
  lemma {:induction false} CompareUnitsAntisymmetric(a: seq<int>, b: seq<int>)
    ensures CompareUnits(a, b) == -CompareUnits(b, a)
    ensures CompareUnits(a, b) == 0 <==> a == b
  {
    if |a| > 0 && |b| > 0 && a[0] == b[0] {
      CompareUnitsAntisymmetric(a[1..], b[1..]);
      assert a == [a[0]] + a[1..] && b == [b[0]] + b[1..];
    }
  }

  /** Code-unit comparison at or below zero is transitive. */
  lemma {:induction false} CompareUnitsTransitive(a: seq<int>, b: seq<int>, c: seq<int>)
    requires CompareUnits(a, b) <= 0 && CompareUnits(b, c) <= 0
    ensures CompareUnits(a, c) <= 0
  {
    if |a| > 0 && |b| > 0 && |c| > 0 && a[0] == b[0] && b[0] == c[0] {
      CompareUnitsTransitive(a[1..], b[1..], c[1..]);
    }
  }

  /** compareTo is antisymmetric and is zero exactly on equal strings, so NameLe is total. */
  lemma {:induction false} CompareToAntisymmetric(a: string, b: string)
    ensures CompareTo(a, b) == -CompareTo(b, a)
    ensures CompareTo(a, b) == 0 <==> a == b
    ensures NameLe(a, b) || NameLe(b, a)
  {
    CompareUnitsAntisymmetric(Utf16(a), Utf16(b));
    if CompareTo(a, b) == 0 {
      Utf16Injective(a, b);
    }
  }

  /** NameLe is transitive. */
  lemma {:induction false} NameLeTransitive(a: string, b: string, c: string)
    requires NameLe(a, b) && NameLe(b, c)
    ensures NameLe(a, c)
  {
    CompareUnitsTransitive(Utf16(a), Utf16(b), Utf16(c));
  }

  /** A character above U+FFFF sorts before U+FFFF, although its code point is larger:
      its first code unit is a surrogate, and surrogates lie below U+FFFF. */
  lemma {:induction false} SupplementarySortsBelowBmp()
    ensures "\U{FFFF}"[0] < "\U{10000}"[0]
    ensures CompareTo("\U{FFFF}", "\U{10000}") > 0
  {
    assert Utf16("\U{10000}") == [0xD800, 0xDC00];
    assert Utf16("\U{FFFF}") == [0xFFFF];
  }

  /** Group names in non-decreasing order under compareTo. */
  ghost predicate SortedByName(gs: seq<SceneGroup>)
  {
    forall i, j :: 0 <= i < j < |gs| ==> NameLe(Name(gs[i]), Name(gs[j]))
  }

  /** Puts `g` after every group whose name sorts no later than its own, so equal names
      keep their input order. */
  function Insert(sorted: seq<SceneGroup>, g: SceneGroup): seq<SceneGroup>
  {
    if |sorted| == 0 then [g]
    else if CompareTo(Name(g), Name(sorted[0])) < 0 then [g] + sorted
    else [sorted[0]] + Insert(sorted[1..], g)
  }

  /** The stream's `sorted` with the name comparator: a permutation of the input in
      non-decreasing name order. Insert places a group after every equal name, so the sort
      is stable like `Stream.sorted`; the contract does not state stability. */
  function SortByName(gs: seq<SceneGroup>): (r: seq<SceneGroup>)
    ensures multiset(r) == multiset(gs)
    ensures SortedByName(r)
  {
    if |gs| == 0 then []
    else
      var n := |gs| - 1;
      var s := SortByName(gs[..n]);
      InsertPerm(s, gs[n]);
      InsertSorted(s, gs[n]);
      assert gs == gs[..n] + [gs[n]];
      Insert(s, gs[n])
  }

  /** Inserting adds exactly one copy of `g`. */
  lemma {:induction false} InsertPerm(sorted: seq<SceneGroup>, g: SceneGroup)
    ensures multiset(Insert(sorted, g)) == multiset(sorted) + multiset{g}
  {
    if |sorted| > 0 && CompareTo(Name(g), Name(sorted[0])) >= 0 {
      InsertPerm(sorted[1..], g);
      assert sorted == [sorted[0]] + sorted[1..];
    }
  }

  /** A lower bound on every name survives insertion of a group it also bounds. */
  lemma {:induction false} InsertBound(sorted: seq<SceneGroup>, g: SceneGroup, low: string)
    requires forall k :: 0 <= k < |sorted| ==> NameLe(low, Name(sorted[k]))
    requires NameLe(low, Name(g))
    ensures forall k :: 0 <= k < |Insert(sorted, g)| ==> NameLe(low, Name(Insert(sorted, g)[k]))
  {
    if |sorted| > 0 && CompareTo(Name(g), Name(sorted[0])) >= 0 {
      InsertBound(sorted[1..], g, low);
      assert Insert(sorted, g) == [sorted[0]] + Insert(sorted[1..], g);
    }
  }

  lemma {:induction false} InsertSorted(sorted: seq<SceneGroup>, g: SceneGroup)
    requires SortedByName(sorted)
    ensures SortedByName(Insert(sorted, g))
  {
    if |sorted| > 0 {
      var h := sorted[0];
      var r := Insert(sorted, g);
      if CompareTo(Name(g), Name(h)) < 0 {
        forall i, j | 0 <= i < j < |r| ensures NameLe(Name(r[i]), Name(r[j])) {
          if i == 0 && j > 1 {
            NameLeTransitive(Name(g), Name(h), Name(r[j]));
          }
        }
      } else {
        var rest := Insert(sorted[1..], g);
        InsertSorted(sorted[1..], g);
        CompareToAntisymmetric(Name(g), Name(h));
        InsertBound(sorted[1..], g, Name(h));
        assert r == [h] + rest;
        forall i, j | 0 <= i < j < |r| ensures NameLe(Name(r[i]), Name(r[j])) {
          if i > 0 {
            assert r[i] == rest[i - 1] && r[j] == rest[j - 1];
          }
        }
      }
    }
  }

  /** The dialog: the sorted groups, the chosen row (0 until a row is tapped), and
      whether a callback was given. */
  datatype Picker = Picker(stored: seq<SceneGroup>, selectedScene: int, hasCallback: bool)

  /** `newInstance`. */
  function NewInstance(scenes: seq<SceneGroup>, hasCallback: bool): Picker
  {
    Picker(SortByName(scenes), 0, hasCallback)
  }

  /** The names shown in the list, row by row. */
  function DisplayNames(p: Picker): (r: seq<string>)
    ensures |r| == |p.stored| && forall i :: 0 <= i < |r| ==> r[i] == Name(p.stored[i])
  {
    seq(|p.stored|, i requires 0 <= i < |p.stored| => Name(p.stored[i]))
  }

  /** The rows read in order are the input groups' names, sorted. */
  lemma {:induction false} DisplayNamesSorted(scenes: seq<SceneGroup>, hasCallback: bool)
    ensures var names := DisplayNames(NewInstance(scenes, hasCallback));
      && |names| == |scenes|
      && forall i, j :: 0 <= i < j < |names| ==> NameLe(names[i], names[j])
  {
    assert |multiset(SortByName(scenes))| == |multiset(scenes)|;
  }

  /** Tapping row `index` records it and nothing else. */
  function Tap(p: Picker, index: int): (r: Picker)
    ensures r.stored == p.stored && r.hasCallback == p.hasCallback
  {
    p.(selectedScene := index)
  }

  /** The OK button: with a callback and a non-negative row, the group at that row is
      delivered (`Ok(Some(g))`); `get` on a missing row throws; otherwise nothing is
      delivered (`Ok(None)`). */
  function OnOk(p: Picker): (r: Result<Option<SceneGroup>>)
    ensures r.Failure? <==> p.hasCallback && p.selectedScene >= |p.stored|
    ensures r.Ok? && r.value.Some? <==> p.hasCallback && 0 <= p.selectedScene < |p.stored|
    ensures r.Ok? && r.value.Some? ==> r.value.value in p.stored
  {
    if !p.hasCallback then Ok(None)
    else if p.selectedScene > -1 then
      if p.selectedScene < |p.stored| then Ok(Some(p.stored[p.selectedScene])) else Failure(IndexOutOfBounds)
    else Ok(None)
  }

  /** The Cancel button delivers nothing and leaves the dialog as it was. */
  function OnCancel(p: Picker): (r: (Picker, Option<SceneGroup>))
    ensures r.0 == p && r.1 == None
  {
    (p, None)
  }

  /** Tapping row i and pressing OK delivers the group shown in row i. */
  lemma {:induction false} TapThenOk(p: Picker, i: int)
    requires p.hasCallback && 0 <= i < |p.stored|
    ensures OnOk(Tap(p, i)) == Ok(Some(p.stored[i]))
    ensures Name(OnOk(Tap(p, i)).value.value) == DisplayNames(p)[i]
  {
  }

  /** Pressing OK without tapping delivers the first group in name order, one whose name
      sorts no later than any input group's; with no groups it throws. */
  lemma {:induction false} OkWithoutTap(scenes: seq<SceneGroup>)
    ensures |scenes| == 0 ==> OnOk(NewInstance(scenes, true)) == Failure(IndexOutOfBounds)
    ensures |scenes| > 0 ==>
      && OnOk(NewInstance(scenes, true)).Ok?
      && OnOk(NewInstance(scenes, true)).value.Some?
      && var g := OnOk(NewInstance(scenes, true)).value.value;
         g in scenes && forall h :: h in scenes ==> NameLe(Name(g), Name(h))
  {
    var s := SortByName(scenes);
    assert |multiset(s)| == |multiset(scenes)|;
    if |scenes| > 0 {
      assert s[0] in multiset(s);
      forall h | h in scenes ensures NameLe(Name(s[0]), Name(h)) {
        assert h in multiset(s);
        var k :| 0 <= k < |s| && s[k] == h;
        if k == 0 {
          CompareToAntisymmetric(Name(h), Name(h));
        }
      }
    }
  }
}
