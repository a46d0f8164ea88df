/** `getStringWithSub`: fills the markers "{0}", "{1}", … of a template, one marker
    after the other, with Java's `String.replace`. The resource lookup that yields the
    template is left to the caller. */
module TextUtilities {

  /** Java's `String.replace(target, replacement)`: every occurrence of `target`, found
      left to right without overlap, is replaced; replaced text is not searched again. */
  function ReplaceAll(s: string, target: string, replacement: string): string
    requires |target| > 0
    decreases |s|
  {
    if |s| < |target| then s
    else if s[..|target|] == target then replacement + ReplaceAll(s[|target|..], target, replacement)
    else [s[0]] + ReplaceAll(s[1..], target, replacement)
  }

  /** Text that does not start with the target's first character keeps its first character. */
  lemma {:induction false} ReplaceAllHead(s: string, target: string, replacement: string)
    requires |target| > 0 && |s| > 0 && s[0] != target[0]
    ensures ReplaceAll(s, target, replacement) == [s[0]] + ReplaceAll(s[1..], target, replacement)
  {
    if |s| >= |target| {
      assert s[..|target|][0] == s[0];
    }
  }

  /** Text that starts with the target has it replaced and the rest searched on. */
  lemma {:induction false} ReplaceAllAt(s: string, target: string, replacement: string)
    requires |target| > 0 && |s| >= |target| && s[..|target|] == target
    ensures ReplaceAll(s, target, replacement) == replacement + ReplaceAll(s[|target|..], target, replacement)
  {
  }

  /** A string without the target's first character holds no occurrence and is unchanged. */
  lemma {:induction false} ReplaceAllAbsent(s: string, target: string, replacement: string)
    requires |target| > 0 && target[0] !in s
    ensures ReplaceAll(s, target, replacement) == s
    decreases |s|
  {
    if |s| > 0 {
      assert s[0] in s;
      ReplaceAllHead(s, target, replacement);
      ReplaceAllAbsent(s[1..], target, replacement);
      assert s == [s[0]] + s[1..];
    }
  }

  /** One occurrence between text free of the target's first character becomes the
      replacement, which is kept as it is even when it contains the target itself. */
  lemma {:induction false} ReplaceAllSplice(p: string, target: string, q: string, replacement: string)
    requires |target| > 0 && target[0] !in p && target[0] !in q
    ensures ReplaceAll(p + target + q, target, replacement) == p + replacement + q
    decreases |p|
  {
    var s := p + target + q;
    if |p| == 0 {
      assert s == target + q;
      assert s[..|target|] == target;
      assert s[|target|..] == q;
      ReplaceAllAt(s, target, replacement);
      ReplaceAllAbsent(q, target, replacement);
      assert p + replacement + q == replacement + q;
    } else {
      assert p[0] in p;
      assert s[0] == p[0];
      ReplaceAllHead(s, target, replacement);
      assert s[1..] == p[1..] + target + q;
      ReplaceAllSplice(p[1..], target, q, replacement);
      assert p + replacement + q == [p[0]] + (p[1..] + replacement + q);
    }
  }

  /** The decimal digit for 0..9. */
  function Digit(d: nat): (c: char)
    requires d < 10
    ensures '0' <= c <= '9'
  {
    ['0', '1', '2', '3', '4', '5', '6', '7', '8', '9'][d]
  }

  /** Java's decimal `int` to string, for a non-negative value. */
  function NatToString(n: nat): (s: string)
    ensures |s| > 0 && forall k :: 0 <= k < |s| ==> '0' <= s[k] <= '9'
    decreases n
  {
    if n < 10 then [Digit(n)] else NatToString(n / 10) + [Digit(n % 10)]
  }

  /** The marker for substitution i: "{" + i + "}". */
  function Marker(i: nat): (m: string)
    ensures |m| >= 3 && m[0] == '{' && m[|m| - 1] == '}'
    ensures '{' !in m[1..]
  {
    "{" + NatToString(i) + "}"
  }

  /** The template after the first n substitutions, in order (the reference fold). */
  function Substituted(template: string, subs: seq<string>, n: nat): string
    requires n <= |subs|
  {
    if n == 0 then template
    else ReplaceAll(Substituted(template, subs, n - 1), Marker(n - 1), subs[n - 1])
  }

  /** `getStringWithSub`: replaces "{i}" by `subs[i]` for i = 0, 1, … in turn. */
  method GetStringWithSub(template: string, subs: seq<string>) returns (str: string)
    ensures str == Substituted(template, subs, |subs|)
    ensures |subs| == 0 ==> str == template
  {
    str := template;
    var i := 0;
    while i < |subs|
      invariant 0 <= i <= |subs|
      invariant str == Substituted(template, subs, i)
    {
      str := ReplaceAll(str, Marker(i), subs[i]);
      i := i + 1;
    }
  }

  /** Once no '{' is left, the remaining substitutions change nothing. */
  lemma {:induction false} NoBraceStaysPut(template: string, subs: seq<string>, m: nat, n: nat)
    requires m <= n <= |subs|
    requires '{' !in Substituted(template, subs, m)
    ensures Substituted(template, subs, n) == Substituted(template, subs, m)
    decreases n
  {
    if n > m {
      NoBraceStaysPut(template, subs, m, n - 1);
      var prev := Substituted(template, subs, n - 1);
      var marker := Marker(n - 1);
      assert marker[0] == '{';
      ReplaceAllAbsent(prev, marker, subs[n - 1]);
      assert Substituted(template, subs, n) == ReplaceAll(prev, marker, subs[n - 1]);
    }
  }

  /** A template without '{' comes back unchanged, whatever the substitutions. */
  lemma {:induction false} NoMarkersUnchanged(template: string, subs: seq<string>)
    requires '{' !in template
    ensures Substituted(template, subs, |subs|) == template
  {
    NoBraceStaysPut(template, subs, 0, |subs|);
  }

  lemma {:induction false} MarkerZero()
    ensures Marker(0) == "{0}"
  {
    assert NatToString(0) == "0";
  }

  /** For p + "{0}" + q, with no '{' in p, q or the first substitution, the result is
      p + subs[0] + q. */
  lemma {:induction false} SingleMarker(p: string, q: string, subs: seq<string>)
    requires |subs| >= 1 && '{' !in p && '{' !in q && '{' !in subs[0]
    ensures Substituted(p + "{0}" + q, subs, |subs|) == p + subs[0] + q
  {
    MarkerZero();
    ReplaceAllSplice(p, "{0}", q, subs[0]);
    assert Substituted(p + "{0}" + q, subs, 1) == p + subs[0] + q;
    NoBraceStaysPut(p + "{0}" + q, subs, 1, |subs|);
  }

  /** The text put in by substitution i is not searched again, even when it holds
      marker i itself: when marker i occurs once, in brace-free context, step i splices
      subs[i] in its place. */
  lemma {:induction false} NoRescan(t: string, subs: seq<string>, i: nat, p: string, q: string)
    requires i < |subs| && '{' !in p && '{' !in q
    requires Substituted(t, subs, i) == p + Marker(i) + q
    ensures Substituted(t, subs, i + 1) == p + subs[i] + q
  {
    ReplaceAllSplice(p, Marker(i), q, subs[i]);
  }

  /** A marker "{1}" put in by substitution 0 is replaced by substitution 1. */
  lemma {:induction false} LaterMarkerReplaced(p: string, q: string, u: string, v: string, s1: string)
    requires '{' !in p && '{' !in q && '{' !in u && '{' !in v
    ensures Substituted(p + "{0}" + q, [u + "{1}" + v, s1], 2) == p + u + s1 + v + q
  {
    var t, subs := p + "{0}" + q, [u + "{1}" + v, s1];
    MarkerZero();
    assert NatToString(1) == "1";
    assert Marker(1) == "{1}";
    ReplaceAllSplice(p, "{0}", q, subs[0]);
    var mid := Substituted(t, subs, 1);
    assert mid == ReplaceAll(Substituted(t, subs, 0), Marker(0), subs[0]);
    assert mid == p + subs[0] + q;
    assert p + subs[0] + q == (p + u) + "{1}" + (v + q);
    assert '{' !in p + u && '{' !in v + q;
    ReplaceAllSplice(p + u, "{1}", v + q, s1);
    assert Substituted(t, subs, 2) == ReplaceAll(mid, Marker(1), s1);
    assert (p + u) + s1 + (v + q) == p + u + s1 + v + q;
  }
}
