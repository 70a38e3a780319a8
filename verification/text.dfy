/** String operations the services rely on: the substring test behind Prisma's `contains`
    filter, and JavaScript's `split` with `pop`, which recovers a file name from a URL. */
module Text {

  /** `needle` occurs as a contiguous run of characters in `hay` (case-sensitive). */
  predicate Contains(hay: string, needle: string)
  {
    exists i | 0 <= i <= |hay| - |needle| :: OccursAt(hay, needle, i)
  }

  /** `needle` occurs in `hay` starting at position `i`. */
  predicate OccursAt(hay: string, needle: string, i: int)
    requires 0 <= i <= |hay| - |needle|
  {
    hay[i..i + |needle|] == needle
  }

  /** The empty string occurs in every string, so an empty filter text rejects nothing. */
  lemma EmptyIsContained(hay: string)
    ensures Contains(hay, "")
  {
    assert OccursAt(hay, "", 0);
  }

  /** Every string occurs in itself. */
  lemma ContainsItself(s: string)
    ensures Contains(s, s)
  {
    assert OccursAt(s, s, 0);
  }

  /** The position of the first `c` in `s`. */
  function IndexOf(s: string, c: char): (i: nat)
    requires c in s
    ensures i < |s| && s[i] == c
    ensures c !in s[..i]
  {
    if s[0] == c then 0
    else
      assert s == [s[0]] + s[1..];
      var j := IndexOf(s[1..], c);
      assert s[..j + 1] == [s[0]] + s[1..][..j];
      1 + j
  }

  /** Any position whose character is `c` and that has no `c` before it is the one IndexOf finds. */
  lemma IndexOfIsFirst(s: string, c: char, i: nat)
    requires i < |s| && s[i] == c && c !in s[..i]
    ensures IndexOf(s, c) == i
  {
  }

  /** The inverse of Split: the parts glued together with `sep` between neighbours (`Array.join`). */
  function Join(parts: seq<string>, sep: char): string
  {
    if |parts| == 0 then ""
    else if |parts| == 1 then parts[0]
    else parts[0] + [sep] + Join(parts[1..], sep)
  }

  /** JavaScript's `s.split(sep)` for a one-character separator: the maximal runs between
      separators, including empty ones, and never an empty list. */
  function Split(s: string, sep: char): (parts: seq<string>)
    ensures |parts| >= 1
    ensures forall i :: 0 <= i < |parts| ==> sep !in parts[i]
    decreases |s|
  {
    if sep !in s then [s]
    else
      var i := IndexOf(s, sep);
      [s[..i]] + Split(s[i + 1..], sep)
  }

  /** Joining the parts with the separator gives back the string: together with the parts
      being separator-free, this determines Split uniquely. */
  lemma {:induction false} SplitJoin(s: string, sep: char)
    ensures Join(Split(s, sep), sep) == s
    decreases |s|
  {
    if sep in s {
      var i := IndexOf(s, sep);
      var rest := Split(s[i + 1..], sep);
      SplitJoin(s[i + 1..], sep);
      assert ([s[..i]] + rest)[1..] == rest;
      assert s == s[..i] + [sep] + s[i + 1..];
    }
  }

  /** `s.split(sep).pop()`: the text after the last separator, or all of `s` when it has none. */
  function LastSegment(s: string, sep: char): (r: string)
    ensures sep !in r
  {
    var parts := Split(s, sep);
    parts[|parts| - 1]
  }

  /** Split cuts at the first separator and splits the rest. */
  lemma SplitAtFirst(s: string, sep: char, i: nat)
    requires i < |s| && s[i] == sep && sep !in s[..i]
    ensures Split(s, sep) == [s[..i]] + Split(s[i + 1..], sep)
  {
    IndexOfIsFirst(s, sep, i);
  }

  /** Appending a separator and a separator-free tail adds exactly one part at the end. */
  lemma {:induction false} SplitAppend(p: string, sep: char, f: string)
    requires sep !in f
    ensures Split(p + [sep] + f, sep) == Split(p, sep) + [f]
    decreases |p|
  {
    if sep !in p {
      SplitAppendLastCut(p, sep, f);
    } else {
      var i := IndexOf(p, sep);
      SplitAppend(p[i + 1..], sep, f);
      SplitAppendStep(p, sep, f, i);
    }
  }

  /** The base case: with no separator in `p` the cut before `f` is the only one. */
  lemma SplitAppendLastCut(p: string, sep: char, f: string)
    requires sep !in f && sep !in p
    ensures Split(p + [sep] + f, sep) == [p] + [f]
  {
    var s := p + [sep] + f;
    assert s[..|p|] == p;
    SplitAtFirst(s, sep, |p|);
    assert s[|p| + 1..] == f;
  }

  /** The step: the first cut of `p` is also the first cut of `p + sep + f`. */
  lemma SplitAppendStep(p: string, sep: char, f: string, i: nat)
    requires i < |p| && p[i] == sep && sep !in p[..i]
    requires Split(p[i + 1..] + [sep] + f, sep) == Split(p[i + 1..], sep) + [f]
    ensures Split(p + [sep] + f, sep) == Split(p, sep) + [f]
  {
    var s := p + [sep] + f;
    var tail := p[i + 1..];
    assert s[..i] == p[..i];
    assert s[i + 1..] == tail + [sep] + f;
    SplitAtFirst(s, sep, i);
    SplitAtFirst(p, sep, i);
    var a := Split(tail, sep);
    calc {
      Split(s, sep);
      [p[..i]] + Split(tail + [sep] + f, sep);
      [p[..i]] + (a + [f]);
      ([p[..i]] + a) + [f];
      Split(p, sep) + [f];
    }
  }

  /** The last segment of `p + sep + f` is `f` exactly when `f` contains no separator. */
  lemma LastSegmentOfAppend(p: string, sep: char, f: string)
    ensures LastSegment(p + [sep] + f, sep) == f <==> sep !in f
  {
    if sep !in f {
      SplitAppend(p, sep, f);
    }
  }
}
