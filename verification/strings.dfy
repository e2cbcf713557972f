/**
 * The handful of java.lang.String and Guava string operations the bootstrapper
 * relies on, each defined once over `seq<char>` together with the
 * characterisation a caller needs.
 */
module Strings {
  import opened Wrappers

  predicate StartsWith(s: string, prefix: string) {
    |prefix| <= |s| && s[..|prefix|] == prefix
  }

  predicate EndsWith(s: string, suffix: string) {
    |suffix| <= |s| && s[|s| - |suffix|..] == suffix
  }

  /** `t` occurs in `s` starting at index `i`. */
  predicate OccursAt(s: string, t: string, i: nat) {
    i + |t| <= |s| && s[i..i + |t|] == t
  }

  /** String.contains: plain substring containment, found by scanning left to right. */
  function Contains(s: string, t: string): (b: bool)
    ensures b <==> exists i: nat :: OccursAt(s, t, i)
    decreases |s|
  {
    if StartsWith(s, t) then
      assert OccursAt(s, t, 0);
      true
    else if s == [] then
      false
    else
      var b := Contains(s[1..], t);
      if b then
        var i: nat :| OccursAt(s[1..], t, i);
        assert s[i + 1..i + 1 + |t|] == s[1..][i..i + |t|];
        assert OccursAt(s, t, i + 1);
        b
      else
        assert forall i: nat :: OccursAt(s, t, i) ==> i > 0 && OccursAt(s[1..], t, i - 1) by {
          forall i: nat | OccursAt(s, t, i)
            ensures i > 0 && OccursAt(s[1..], t, i - 1)
          {
            if i != 0 {
              assert s[1..][i - 1..i - 1 + |t|] == s[i..i + |t|];
            }
          }
        }
        b
  }

  /** String.indexOf(char): the first position of `c`, or None (Java's -1). */
  function IndexOf(s: string, c: char): (r: Option<nat>)
    ensures r.None? <==> c !in s
    ensures r.Some? ==> r.value < |s| && s[r.value] == c && c !in s[..r.value]
  {
    if s == [] then None
    else if s[0] == c then Some(0)
    else match IndexOf(s[1..], c)
      case None => None
      case Some(i) =>
        assert s[..i + 1] == [s[0]] + s[1..][..i];
        Some(i + 1)
  }

  /** A position holding `c` with no `c` before it is the one IndexOf finds. */
  lemma IndexOfIsFirst(s: string, c: char, i: nat)
    requires i < |s| && s[i] == c && c !in s[..i]
    ensures IndexOf(s, c) == Some(i)
  {
  }

  /** String.lastIndexOf(char): the last position of `c`, or None. */
  function LastIndexOf(s: string, c: char): (r: Option<nat>)
    ensures r.None? <==> c !in s
    ensures r.Some? ==> r.value < |s| && s[r.value] == c && c !in s[r.value + 1..]
  {
    if s == [] then None
    else if s[|s| - 1] == c then
      assert s[|s|..] == [];
      Some(|s| - 1)
    else
      var init := s[..|s| - 1];
      assert s == init + [s[|s| - 1]];
      match LastIndexOf(init, c)
      case None => None
      case Some(i) =>
        assert s[i + 1..] == init[i + 1..] + [s[|s| - 1]];
        Some(i)
  }

  /** String.replace(char, char): every `a` becomes `b`, nothing else moves. */
  function Replace(s: string, a: char, b: char): (r: string)
    ensures |r| == |s|
    ensures forall i :: 0 <= i < |s| ==> r[i] == (if s[i] == a then b else s[i])
  {
    if s == [] then [] else [if s[0] == a then b else s[0]] + Replace(s[1..], a, b)
  }

  function LowerChar(c: char): char {
    if 'A' <= c <= 'Z' then (c as int - 'A' as int + 'a' as int) as char else c
  }

  /** String.toLowerCase restricted to the ASCII letters. */
  function Lower(s: string): (r: string)
    ensures |r| == |s|
    ensures forall i :: 0 <= i < |s| ==> r[i] == LowerChar(s[i])
  {
    if s == [] then [] else [LowerChar(s[0])] + Lower(s[1..])
  }

  /** Lower-casing commutes with taking a suffix. */
  lemma {:induction false} LowerSuffix(s: string, k: nat)
    requires k <= |s|
    ensures Lower(s)[k..] == Lower(s[k..])
  {
    var l, r := Lower(s)[k..], Lower(s[k..]);
    assert |l| == |r|;
    forall i | 0 <= i < |l| ensures l[i] == r[i] {
      assert l[i] == Lower(s)[k + i] == LowerChar(s[k + i]);
    }
  }

  /** `s` with every `c` deleted. */
  function Without(s: string, c: char): (r: string)
    ensures c !in r
    ensures |r| <= |s|
  {
    if s == [] then [] else (if s[0] == c then [] else [s[0]]) + Without(s[1..], c)
  }

  lemma {:induction false} WithoutAppend(a: string, b: string, c: char)
    ensures Without(a + b, c) == Without(a, c) + Without(b, c)
    decreases |a|
  {
    if a == [] {
      assert a + b == b;
    } else {
      assert (a + b)[0] == a[0] && (a + b)[1..] == a[1..] + b;
      WithoutAppend(a[1..], b, c);
      var head := if a[0] == c then [] else [a[0]];
      AppendAssociates(head, Without(a[1..], c), Without(b, c));
    }
  }

  lemma WithoutAbsent(s: string, c: char)
    requires c !in s
    ensures Without(s, c) == s
    decreases |s|
  {
    if s != [] {
      assert c !in s[1..];
      WithoutAbsent(s[1..], c);
    }
  }

  /** The pieces laid end to end, with no separator. */
  function Concat(pieces: seq<string>): string {
    if pieces == [] then [] else pieces[0] + Concat(pieces[1..])
  }

  lemma {:induction false} ConcatAppend(a: seq<string>, b: seq<string>)
    ensures Concat(a + b) == Concat(a) + Concat(b)
    decreases |a|
  {
    if a == [] {
      assert a + b == b;
    } else {
      assert (a + b)[0] == a[0] && (a + b)[1..] == a[1..] + b;
      ConcatAppend(a[1..], b);
      AppendAssociates(a[0], Concat(a[1..]), Concat(b));
    }
  }

  /** The pieces separated by `sep`: the inverse of Split for well-formed pieces. */
  function JoinWith(pieces: seq<string>, sep: char): string {
    if pieces == [] then []
    else if |pieces| == 1 then pieces[0]
    else pieces[0] + [sep] + JoinWith(pieces[1..], sep)
  }

  /**
   * Guava's Splitter.on(sep).omitEmptyStrings(): the maximal runs of `s` free
   * of `sep`, in order, with the empty runs dropped. Every piece is non-empty
   * and free of the separator, and together they hold exactly the characters
   * of `s` other than the separator.
   */
  function Split(s: string, sep: char): (pieces: seq<string>)
    ensures forall k :: 0 <= k < |pieces| ==> pieces[k] != [] && sep !in pieces[k]
    ensures Concat(pieces) == Without(s, sep)
    decreases |s|
  {
    match IndexOf(s, sep)
    case None =>
      WithoutAbsent(s, sep);
      if s == [] then [] else [s]
    case Some(i) =>
      var head, rest := s[..i], Split(s[i + 1..], sep);
      var first := if head == [] then [] else [head];
      SplitPiecesStep(head, rest, sep);
      SplitConcatStep(s, sep, i, rest);
      first + rest
  }

  /** A separator-free, non-empty head keeps every piece non-empty and separator-free. */
  lemma SplitPiecesStep(head: string, rest: seq<string>, sep: char)
    requires sep !in head
    requires forall k :: 0 <= k < |rest| ==> rest[k] != [] && sep !in rest[k]
    ensures var pieces := (if head == [] then [] else [head]) + rest;
      forall k :: 0 <= k < |pieces| ==> pieces[k] != [] && sep !in pieces[k]
  {
    var first := if head == [] then [] else [head];
    forall k | 0 <= k < |first + rest| ensures (first + rest)[k] != [] && sep !in (first + rest)[k] {
      if k >= |first| {
        assert (first + rest)[k] == rest[k - |first|];
      }
    }
  }

  /** Cutting at the first separator: the head, then the pieces of what follows, hold the characters other than the separator. */
  lemma SplitConcatStep(s: string, sep: char, i: nat, rest: seq<string>)
    requires i < |s| && s[i] == sep && sep !in s[..i]
    requires Concat(rest) == Without(s[i + 1..], sep)
    ensures Concat((if s[..i] == [] then [] else [s[..i]]) + rest) == Without(s, sep)
  {
    var head := s[..i];
    assert s == head + [sep] + s[i + 1..];
    WithoutAppend(head + [sep], s[i + 1..], sep);
    WithoutAppend(head, [sep], sep);
    WithoutAbsent(head, sep);
    ConcatAppend(if head == [] then [] else [head], rest);
  }

  /** A separator-free string is one piece, or none when it is empty. */
  lemma SplitWithoutSeparator(s: string, sep: char)
    requires sep !in s
    ensures Split(s, sep) == if s == [] then [] else [s]
  {
    assert IndexOf(s, sep).None?;
  }

  /**
   * Split breaks at every separator: the pieces of `a`, the separator, then
   * `b` are the pieces of `a` followed by those of `b`. With the base case
   * above this fixes Split completely, and in particular an empty run between
   * two separators, before the first or after the last contributes nothing.
   */
  lemma {:induction false} SplitAppend(a: string, b: string, sep: char)
    ensures Split(a + [sep] + b, sep) == Split(a, sep) + Split(b, sep)
    decreases |a|
  {
    var s := a + [sep] + b;
    match IndexOf(a, sep)
    case None =>
      assert s[|a|] == sep && s[..|a|] == a;
      IndexOfIsFirst(s, sep, |a|);
      assert s[|a| + 1..] == b;
      SplitAt(s, sep, |a|);
      SplitWithoutSeparator(a, sep);
    case Some(i) =>
      var rest := a[i + 1..];
      assert s[..i] == a[..i] && s[i] == sep;
      IndexOfIsFirst(s, sep, i);
      assert s[i + 1..] == rest + [sep] + b;
      var head: seq<string> := if a[..i] == [] then [] else [a[..i]];
      SplitAt(s, sep, i);
      assert Split(s, sep) == head + Split(rest + [sep] + b, sep);
      SplitAppend(rest, b, sep);
      SplitAt(a, sep, i);
      assert Split(a, sep) == head + Split(rest, sep);
      AppendAssociates(head, Split(rest, sep), Split(b, sep));
  }

  lemma AppendAssociates<T>(x: seq<T>, y: seq<T>, z: seq<T>)
    ensures x + (y + z) == (x + y) + z
  {
  }

  /** Split cuts at the first separator and carries on after it. */
  lemma SplitAt(s: string, sep: char, i: nat)
    requires IndexOf(s, sep) == Some(i)
    ensures Split(s, sep) == (if s[..i] == [] then [] else [s[..i]]) + Split(s[i + 1..], sep)
  {
  }

  /** Splitting what JoinWith produced gives the pieces back. */
  lemma {:induction false} SplitJoinWith(pieces: seq<string>, sep: char)
    requires forall k :: 0 <= k < |pieces| ==> pieces[k] != [] && sep !in pieces[k]
    ensures Split(JoinWith(pieces, sep), sep) == pieces
    decreases |pieces|
  {
    if pieces == [] {
    } else if |pieces| == 1 {
      assert IndexOf(pieces[0], sep).None?;
    } else {
      var p, s := pieces[0], JoinWith(pieces, sep);
      var tail := JoinWith(pieces[1..], sep);
      assert s == p + [sep] + tail;
      assert s[..|p|] == p;
      assert IndexOf(s, sep) == Some(|p|) by {
        assert s[|p|] == sep;
        assert sep !in s[..|p|];
      }
      assert s[|p| + 1..] == tail;
      SplitJoinWith(pieces[1..], sep);
      assert pieces == [p] + pieces[1..];
    }
  }
}
