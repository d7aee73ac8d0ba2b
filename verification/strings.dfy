/**
  The Python `str` and `list` built-ins the modelled code relies on:
  `startswith`, `in` on strings, `split`, `join`, `lstrip`, `readlines`
  and `writelines`, and `list(set(xs))`.
 */
module Strings {

  /** `s.startswith(prefix)` */
  predicate StartsWith(s: string, prefix: string) {
    |prefix| <= |s| && s[..|prefix|] == prefix
  }

  /** `needle in haystack` for two strings. */
  predicate Contains(haystack: string, needle: string) {
    StartsWith(haystack, needle) || (haystack != [] && Contains(haystack[1..], needle))
  }

  /** Number of occurrences of `c` in `s`. */
  function Count(s: string, c: char): nat {
    if s == [] then 0 else (if s[0] == c then 1 else 0) + Count(s[1..], c)
  }

  /** `s.split(c)` for a one-character separator. */
  function Split(s: string, c: char): (parts: seq<string>)
    ensures |parts| == Count(s, c) + 1
    ensures forall i :: 0 <= i < |parts| ==> c !in parts[i]
  {
    if s == [] then [""]
    else
      var rest := Split(s[1..], c);
      if s[0] == c then [""] + rest
      else [[s[0]] + rest[0]] + rest[1..]
  }

  /** `sep.join(parts)` */
  function Join(parts: seq<string>, sep: string): string {
    if parts == [] then ""
    else if |parts| == 1 then parts[0]
    else parts[0] + sep + Join(parts[1..], sep)
  }

  /** The index of the first `c` in `s`, or `|s|` when there is none. */
  function FirstIndexOf(s: string, c: char): (k: nat)
    ensures k <= |s| && c !in s[..k]
    ensures k < |s| ==> s[k] == c
  {
    if s == [] || s[0] == c then 0
    else
      var k := FirstIndexOf(s[1..], c) + 1;
      assert s[..k] == [s[0]] + s[1..][..k - 1];
      k
  }

  /** The first part of `s.split(c)` is the text before the first `c`. */
  lemma {:induction false} SplitHead(s: string, c: char)
    ensures Split(s, c)[0] == s[..FirstIndexOf(s, c)]
  {
    if s != [] && s[0] != c {
      SplitHead(s[1..], c);
      assert s[..FirstIndexOf(s, c)] == [s[0]] + s[1..][..FirstIndexOf(s[1..], c)];
    }
  }

  /** `needle` occurs in `haystack` starting at index `i`. */
  predicate OccursAt(haystack: string, needle: string, i: int) {
    0 <= i && i + |needle| <= |haystack| && haystack[i..i + |needle|] == needle
  }

  /** `needle in haystack` holds exactly when the needle occurs at some index. */
  lemma {:induction false} ContainsAt(haystack: string, needle: string)
    ensures Contains(haystack, needle) <==> exists i :: OccursAt(haystack, needle, i)
    decreases |haystack|
  {
    var n := |needle|;
    if haystack != [] {
      var tail := haystack[1..];
      ContainsAt(tail, needle);
      if Contains(tail, needle) {
        var i :| OccursAt(tail, needle, i);
        assert haystack[i + 1..i + 1 + n] == needle;
        assert OccursAt(haystack, needle, i + 1);
      }
      if StartsWith(haystack, needle) {
        assert OccursAt(haystack, needle, 0);
      }
      if exists i :: OccursAt(haystack, needle, i) {
        var i :| OccursAt(haystack, needle, i);
        if i > 0 {
          assert tail[i - 1..i - 1 + n] == needle;
          assert OccursAt(tail, needle, i - 1);
        }
      }
    } else if needle == [] {
      assert OccursAt(haystack, needle, 0);
    }
  }

  /** A string with exactly one separator splits into the two sides of it. */
  lemma {:induction false} SplitOnce(a: string, b: string, c: char)
    requires c !in a && c !in b
    ensures Split(a + [c] + b, c) == [a, b]
  {
    if a == [] {
      assert a + [c] + b == [c] + b;
      SplitNone(b, c);
    } else {
      assert (a + [c] + b)[1..] == a[1..] + [c] + b;
      SplitOnce(a[1..], b, c);
      assert [a[0]] + a[1..] == a;
    }
  }

  lemma {:induction false} SplitNone(s: string, c: char)
    requires c !in s
    ensures Split(s, c) == [s]
  {
    if s != [] {
      SplitNone(s[1..], c);
      assert [s[0]] + s[1..] == s;
    }
  }

  /** `s.lstrip(chars)`: drops leading characters that belong to the SET `chars`. */
  function LStrip(s: string, chars: set<char>): (r: string)
    ensures |r| <= |s| && r == s[|s| - |r|..]
    ensures r == [] || r[0] !in chars
    ensures forall i :: 0 <= i < |s| - |r| ==> s[i] in chars
  {
    if s != [] && s[0] in chars then LStrip(s[1..], chars) else s
  }

  /** `lstrip` of a string made only of stripped characters leaves nothing. */
  lemma LStripAll(s: string, chars: set<char>)
    requires forall i :: 0 <= i < |s| ==> s[i] in chars
    ensures LStrip(s, chars) == []
  {
  }

  /** `lstrip` removes a prefix of stripped characters and stops at the first other one. */
  lemma LStripThrough(p: string, s: string, chars: set<char>)
    requires forall i :: 0 <= i < |p| ==> p[i] in chars
    requires s != [] && s[0] !in chars
    ensures LStrip(p + s, chars) == s
  {
    var ps := p + s;
    assert ps[|p|] == s[0] && forall i :: 0 <= i < |p| ==> ps[i] == p[i];
    assert ps[|p|..] == s;
  }

  /** `"".join(lines)`, which is what `writelines` puts in a file. */
  function Concat(lines: seq<string>): string {
    if lines == [] then "" else lines[0] + Concat(lines[1..])
  }

  lemma {:induction false} ConcatAppend(a: seq<string>, b: seq<string>)
    ensures Concat(a + b) == Concat(a) + Concat(b)
  {
    if a != [] {
      assert (a + b)[1..] == a[1..] + b;
      ConcatAppend(a[1..], b);
    } else {
      assert a + b == b;
    }
  }

  lemma ConcatOne(l: string)
    ensures Concat([l]) == l
  {
    assert [l][1..] == [];
  }

  /** The first line of `s`, its line break included (the part `readline` returns). */
  function LineEnd(s: string): (n: nat)
    ensures n <= |s|
    ensures s != [] ==> 0 < n
    ensures forall i :: 0 <= i < n - 1 ==> s[i] != '\n'
    ensures n < |s| ==> s[n - 1] == '\n'
  {
    if s == [] then 0
    else if s[0] == '\n' then 1
    else 1 + LineEnd(s[1..])
  }

  /** `f.readlines()`: every line keeps its `'\n'`; the last may lack one. */
  function Lines(s: string): (lines: seq<string>)
    ensures forall i :: 0 <= i < |lines| ==> lines[i] != []
    decreases |s|
  {
    if s == [] then []
    else
      var n := LineEnd(s);
      [s[..n]] + Lines(s[n..])
  }

  /** Writing back what was read gives the same file. */
  lemma {:induction false} ConcatLines(s: string)
    ensures Concat(Lines(s)) == s
    decreases |s|
  {
    if s != [] {
      var n := LineEnd(s);
      ConcatLines(s[n..]);
      assert Lines(s)[1..] == Lines(s[n..]);
      assert s[..n] + s[n..] == s;
    }
  }

  /** A line as `readlines` returns it: non-empty, with a line break at most at its end. */
  predicate IsLine(l: string) {
    l != [] && forall k :: 0 <= k < |l| - 1 ==> l[k] != '\n'
  }

  predicate Terminated(l: string) {
    l != [] && l[|l| - 1] == '\n'
  }

  /** What `readlines` can return: lines, all but the last terminated. */
  predicate WellSplit(ls: seq<string>) {
    && (forall i :: 0 <= i < |ls| ==> IsLine(ls[i]))
    && (forall i :: 0 <= i < |ls| - 1 ==> Terminated(ls[i]))
  }

  lemma {:induction false} LinesWellSplit(s: string)
    ensures WellSplit(Lines(s))
    decreases |s|
  {
    if s != [] {
      var n := LineEnd(s);
      LinesWellSplit(s[n..]);
      var ls := Lines(s);
      assert ls[1..] == Lines(s[n..]);
      if n < |s| {
        assert Lines(s[n..]) != [];
      }
    }
  }

  lemma {:induction false} LineEndOfLine(l: string, rest: string)
    requires IsLine(l) && (Terminated(l) || rest == [])
    ensures LineEnd(l + rest) == |l|
    decreases |l|
  {
    if |l| > 1 {
      assert (l + rest)[1..] == l[1..] + rest;
      LineEndOfLine(l[1..], rest);
    }
  }

  /** A file holding one line reads as that line. */
  lemma SingleLine(l: string)
    requires IsLine(l)
    ensures Lines(l) == [l]
  {
    LineEndOfLine(l, []);
    assert l + [] == l;
    assert l[..|l|] == l && l[|l|..] == [];
  }

  /** Reading back what `writelines` wrote gives the same lines. */
  lemma {:induction false} LinesOfConcat(ls: seq<string>)
    requires WellSplit(ls)
    ensures Lines(Concat(ls)) == ls
  {
    if ls != [] {
      var rest := Concat(ls[1..]);
      assert WellSplit(ls[1..]);
      LinesOfConcat(ls[1..]);
      if |ls| > 1 {
        assert Terminated(ls[0]);
      } else {
        assert rest == [];
      }
      LineEndOfLine(ls[0], rest);
      var s := ls[0] + rest;
      assert s[..|ls[0]|] == ls[0] && s[|ls[0]|..] == rest;
    }
  }

  /** The last line read from a non-empty file ends with the file's last character. */
  lemma {:induction false} LastLineEnds(s: string)
    requires s != []
    ensures Lines(s) != [] && var ls := Lines(s); ls[|ls| - 1][|ls[|ls| - 1]| - 1] == s[|s| - 1]
  {
    var ls := Lines(s);
    var n := |ls| - 1;
    ConcatLines(s);
    assert ls[..n] + [ls[n]] == ls;
    ConcatAppend(ls[..n], [ls[n]]);
    assert Concat([ls[n]]) == ls[n];
  }

  /** A file that ends with a line break reads as its lines followed by those of what is appended. */
  lemma {:induction false} LinesAppend(a: string, b: string)
    requires a == [] || a[|a| - 1] == '\n'
    ensures Lines(a + b) == Lines(a) + Lines(b)
  {
    var la, lb := Lines(a), Lines(b);
    LinesWellSplit(a);
    LinesWellSplit(b);
    if a != [] {
      LastLineEnds(a);
    }
    assert WellSplit(la + lb) by {
      forall i | 0 <= i < |la + lb| - 1 ensures Terminated((la + lb)[i]) {
        if i < |la| - 1 {
          assert (la + lb)[i] == la[i];
        } else if i == |la| - 1 {
          assert (la + lb)[i] == la[i];
        } else {
          assert (la + lb)[i] == lb[i - |la|];
        }
      }
    }
    ConcatLines(a);
    ConcatLines(b);
    ConcatAppend(la, lb);
    LinesOfConcat(la + lb);
  }

  /** A joined list holds a character only if a part or the separator does. */
  lemma {:induction false} JoinAvoids(parts: seq<string>, sep: string, c: char)
    requires c !in sep && forall i :: 0 <= i < |parts| ==> c !in parts[i]
    ensures c !in Join(parts, sep)
  {
    if |parts| > 1 {
      JoinAvoids(parts[1..], sep, c);
    }
  }

  /** `s.removeprefix(prefix)` */
  function RemovePrefix(s: string, prefix: string): (r: string)
    ensures StartsWith(s, prefix) ==> s == prefix + r
    ensures !StartsWith(s, prefix) ==> r == s
  {
    if StartsWith(s, prefix) then s[|prefix|..] else s
  }

  /** No element occurs twice. */
  predicate NoDuplicates<T(==)>(xs: seq<T>) {
    forall i, j :: 0 <= i < j < |xs| ==> xs[i] != xs[j]
  }

  /**
    `list(set(xs))`. Python leaves the order of the result unspecified; this
    model keeps the last occurrence of each element, in order.
   */
  function Dedup<T(==)>(xs: seq<T>): (r: seq<T>)
    ensures forall i :: 0 <= i < |r| ==> r[i] in xs
    ensures forall i :: 0 <= i < |xs| ==> xs[i] in r
    ensures NoDuplicates(r)
  {
    if xs == [] then []
    else
      var rest := Dedup(xs[1..]);
      if xs[0] in xs[1..] then rest else [xs[0]] + rest
  }
}
