/** The string operations the extractor relies on: Python's str.strip(),
    str.join, filter(None, ...), str.lower() and the `in` substring test,
    restricted to ASCII. SplitLines only serves to state what the lines of
    a joined text are. */
module Strings {

  /** The ASCII characters for which Python's str.isspace() holds, and hence
      the ones str.strip() removes: tab, line feed, vertical tab, form feed,
      carriage return, the four separators 0x1C-0x1F, and space. */
  predicate IsSpace(c: char) {
    c == ' ' || ('\U{9}' <= c <= '\U{D}') || ('\U{1C}' <= c <= '\U{1F}')
  }

  /** Every character is whitespace (the empty string included). */
  predicate Blank(s: string) {
    forall i :: 0 <= i < |s| ==> IsSpace(s[i])
  }

  /** Neither end of the string is whitespace. */
  predicate IsTrimmed(s: string) {
    |s| == 0 || (!IsSpace(s[0]) && !IsSpace(s[|s| - 1]))
  }

  /** str.strip(): s without its leading and trailing whitespace. */
  function Strip(s: string): (r: string)
    ensures IsTrimmed(r)
    ensures |r| <= |s|
    ensures r == [] <==> Blank(s)
    ensures IsTrimmed(s) ==> r == s
    decreases |s|
  {
    if |s| > 0 && IsSpace(s[0]) then
      assert Blank(s) <==> Blank(s[1..]) by {
        assert forall i :: 1 <= i < |s| ==> s[1..][i - 1] == s[i];
      }
      Strip(s[1..])
    else if |s| > 0 && IsSpace(s[|s| - 1]) then
      assert Blank(s) <==> Blank(s[..|s| - 1]) by {
        assert forall i :: 0 <= i < |s| - 1 ==> s[..|s| - 1][i] == s[i];
      }
      Strip(s[..|s| - 1])
    else
      s
  }

  /** r is s[i..j], and everything of s outside it is whitespace. */
  predicate MiddleOf(s: string, r: string, i: int, j: int) {
    0 <= i <= j <= |s| && r == s[i..j] && Blank(s[..i]) && Blank(s[j..])
  }

  /** A middle part of s[1..] is one of s when s[0] is whitespace. */
  lemma MiddleAfterSpace(s: string, r: string, i: int, j: int)
    requires |s| > 0 && IsSpace(s[0])
    requires MiddleOf(s[1..], r, i, j)
    ensures MiddleOf(s, r, i + 1, j + 1)
  {
    var t := s[1..];
    assert t[i..j] == s[i + 1..j + 1];
    assert t[j..] == s[j + 1..];
    var lead := s[..i + 1];
    assert Blank(lead) by {
      forall k | 0 <= k < |lead| ensures IsSpace(lead[k]) {
        if k > 0 { assert lead[k] == t[..i][k - 1]; }
      }
    }
  }

  /** A middle part of s without its last character is one of s when that
      character is whitespace. */
  lemma MiddleBeforeSpace(s: string, r: string, i: int, j: int)
    requires |s| > 0 && IsSpace(s[|s| - 1])
    requires MiddleOf(s[..|s| - 1], r, i, j)
    ensures MiddleOf(s, r, i, j)
  {
    var t := s[..|s| - 1];
    assert t[i..j] == s[i..j];
    assert t[..i] == s[..i];
    var trail := s[j..];
    assert Blank(trail) by {
      forall k | 0 <= k < |trail| ensures IsSpace(trail[k]) {
        if k < |trail| - 1 { assert trail[k] == t[j..][k]; }
      }
    }
  }

  /** Strip takes out a middle part of s: all it removes is whitespace at
      the two ends. */
  lemma {:induction false} StripRemovesOnlyEnds(s: string)
    ensures exists i, j :: MiddleOf(s, Strip(s), i, j)
    decreases |s|
  {
    if |s| > 0 && IsSpace(s[0]) {
      StripRemovesOnlyEnds(s[1..]);
      var i, j :| MiddleOf(s[1..], Strip(s[1..]), i, j);
      MiddleAfterSpace(s, Strip(s), i, j);
    } else if |s| > 0 && IsSpace(s[|s| - 1]) {
      StripRemovesOnlyEnds(s[..|s| - 1]);
      var i, j :| MiddleOf(s[..|s| - 1], Strip(s[..|s| - 1]), i, j);
      MiddleBeforeSpace(s, Strip(s), i, j);
    } else {
      assert s[0..|s|] == s;
      assert MiddleOf(s, Strip(s), 0, |s|);
    }
  }

  /** Every part is non-empty and trimmed: what stripped_strings yields. */
  predicate WellStripped(parts: seq<string>) {
    forall i :: 0 <= i < |parts| ==> parts[i] != [] && IsTrimmed(parts[i])
  }

  /** The combined length of the parts. */
  function TotalLength(parts: seq<string>): nat
  {
    if parts == [] then 0 else |parts[0]| + TotalLength(parts[1..])
  }

  /** sep.join(parts): the parts in order with one separator between each
      neighbouring pair. */
  function Join(sep: string, parts: seq<string>): string
  {
    if |parts| == 0 then ""
    else if |parts| == 1 then parts[0]
    else parts[0] + sep + Join(sep, parts[1..])
  }

  /** The join is as long as its parts together plus one separator fewer
      than there are parts. */
  lemma {:induction false} JoinLength(sep: string, parts: seq<string>)
    ensures |Join(sep, parts)| == TotalLength(parts) + (if parts == [] then 0 else (|parts| - 1) * |sep|)
  {
    if |parts| > 1 {
      JoinLength(sep, parts[1..]);
    }
  }

  /** Joining two parts puts the separator between them. */
  lemma JoinTwo(sep: string, a: string, b: string)
    ensures Join(sep, [a, b]) == a + sep + b
  {
    assert [a, b][1..] == [b];
    assert Join(sep, [b]) == b;
  }

  /** "\n".join(parts). */
  function JoinLines(parts: seq<string>): string
  {
    Join("\n", parts)
  }

  /** "".join(parts). */
  function Concat(parts: seq<string>): string
  {
    Join("", parts)
  }

  /** [p.strip() for p in parts]. */
  function StripAll(parts: seq<string>): (r: seq<string>)
    ensures |r| == |parts|
    ensures forall i :: 0 <= i < |r| ==> r[i] == Strip(parts[i]) && IsTrimmed(r[i])
  {
    if parts == [] then [] else [Strip(parts[0])] + StripAll(parts[1..])
  }

  /** filter(None, parts): the non-empty parts, in order. */
  function NonEmpty(parts: seq<string>): (r: seq<string>)
    ensures |r| <= |parts|
    ensures forall i :: 0 <= i < |r| ==> r[i] != [] && r[i] in parts
    ensures forall p :: p in parts && p != [] ==> p in r
  {
    if parts == [] then []
    else if parts[0] == [] then NonEmpty(parts[1..])
    else [parts[0]] + NonEmpty(parts[1..])
  }

  /** filter keeps the order of the parts: filtering two lists side by
      side is filtering each, first then second. */
  lemma {:induction false} NonEmptyAppend(a: seq<string>, b: seq<string>)
    ensures NonEmpty(a + b) == NonEmpty(a) + NonEmpty(b)
  {
    if a != [] {
      assert (a + b)[0] == a[0] && (a + b)[1..] == a[1..] + b;
      NonEmptyAppend(a[1..], b);
    } else {
      assert a + b == b;
    }
  }

  /** Stripping and filtering a sequence that is already well stripped
      changes nothing. */
  lemma {:induction false} StripFilterIdentity(parts: seq<string>)
    requires WellStripped(parts)
    ensures NonEmpty(StripAll(parts)) == parts
  {
    if parts != [] {
      StripFilterIdentity(parts[1..]);
    }
  }

  /** Joining well-stripped parts with any separator gives a trimmed string,
      which is empty exactly when there are no parts. */
  lemma {:induction false} JoinWellStripped(sep: string, parts: seq<string>)
    requires WellStripped(parts)
    ensures IsTrimmed(Join(sep, parts))
    ensures Join(sep, parts) == [] <==> parts == []
    ensures parts != [] ==> |Join(sep, parts)| >= |parts[0]|
  {
    if |parts| >= 2 {
      JoinWellStripped(sep, parts[1..]);
      var rest := Join(sep, parts[1..]);
      var j := parts[0] + sep + rest;
      assert j[0] == parts[0][0];
      assert j[|j| - 1] == rest[|rest| - 1];
    }
  }

  /** str.split('\n'): the maximal newline-free pieces of s, in order
      (one more piece than s has newlines). */
  function SplitLines(s: string): (r: seq<string>)
    ensures |r| >= 1
  {
    if |s| == 0 then [""]
    else
      var rest := SplitLines(s[1..]);
      if s[0] == '\n' then [""] + rest else [[s[0]] + rest[0]] + rest[1..]
  }

  lemma {:induction false} SplitNoNewline(p: string)
    requires '\n' !in p
    ensures SplitLines(p) == [p]
  {
    if |p| > 0 {
      assert p[0] != '\n';
      assert '\n' !in p[1..] by {
        forall i | 0 <= i < |p[1..]| ensures p[1..][i] != '\n' { assert p[1..][i] == p[i + 1]; }
      }
      SplitNoNewline(p[1..]);
      assert [p[0]] + p[1..] == p;
    }
  }

  lemma {:induction false} SplitAfterLine(p: string, q: string)
    requires '\n' !in p
    ensures SplitLines(p + "\n" + q) == [p] + SplitLines(q)
  {
    var s := p + "\n" + q;
    if |p| == 0 {
      assert s[0] == '\n' && s[1..] == q;
    } else {
      assert p[0] != '\n';
      assert '\n' !in p[1..] by {
        forall i | 0 <= i < |p[1..]| ensures p[1..][i] != '\n' { assert p[1..][i] == p[i + 1]; }
      }
      assert s[0] == p[0] && s[1..] == p[1..] + "\n" + q;
      SplitAfterLine(p[1..], q);
      assert [p[0]] + p[1..] == p;
    }
  }

  /** Splitting a "\n"-join of newline-free parts gives the parts back. */
  lemma {:induction false} SplitJoinLines(parts: seq<string>)
    requires |parts| >= 1
    requires forall i :: 0 <= i < |parts| ==> '\n' !in parts[i]
    ensures SplitLines(JoinLines(parts)) == parts
  {
    if |parts| == 1 {
      SplitNoNewline(parts[0]);
    } else {
      SplitAfterLine(parts[0], JoinLines(parts[1..]));
      SplitJoinLines(parts[1..]);
    }
  }

  /** Joining the lines of s with "\n" gives s back. */
  lemma {:induction false} JoinSplitLines(s: string)
    ensures JoinLines(SplitLines(s)) == s
  {
    if |s| > 0 {
      var rest := SplitLines(s[1..]);
      JoinSplitLines(s[1..]);
      if s[0] == '\n' {
        assert ([""] + rest)[1..] == rest;
      } else if |rest| == 1 {
        assert [s[0]] + s[1..] == s;
      } else {
        var r := [[s[0]] + rest[0]] + rest[1..];
        assert r[1..] == rest[1..];
        assert JoinLines(rest) == rest[0] + "\n" + JoinLines(rest[1..]);
        assert [s[0]] + s[1..] == s;
      }
    }
  }

  /** ASCII lower-casing of one character. */
  function LowerChar(c: char): (d: char)
    ensures !('A' <= d <= 'Z')
    ensures 'A' <= c <= 'Z' ==> d as int == c as int + 32
    ensures !('A' <= c <= 'Z') ==> d == c
  {
    if 'A' <= c <= 'Z' then (c as int + 32) as char else c
  }

  /** str.lower(), restricted to ASCII letters. */
  function Lower(s: string): (r: string)
    ensures |r| == |s|
    ensures forall i :: 0 <= i < |s| ==> r[i] == LowerChar(s[i])
  {
    if s == [] then [] else [LowerChar(s[0])] + Lower(s[1..])
  }

  /** needle occurs in hay starting at position i. */
  predicate OccursAt(hay: string, needle: string, i: int) {
    0 <= i <= |hay| - |needle| && hay[i..i + |needle|] == needle
  }

  /** needle in hay (Python's substring test; the empty needle is in every string). */
  predicate Contains(hay: string, needle: string)
    ensures Contains(hay, needle) ==> |needle| <= |hay|
  {
    exists i :: 0 <= i <= |hay| && OccursAt(hay, needle, i)
  }

  /** Lower-casing works character by character, so it distributes over concatenation. */
  lemma LowerAppend(a: string, b: string)
    ensures Lower(a + b) == Lower(a) + Lower(b)
  {
    assert forall i :: 0 <= i < |a + b| ==> Lower(a + b)[i] == (Lower(a) + Lower(b))[i];
  }

  /** A needle in the middle part is in the whole string. */
  lemma ContainsInfix(a: string, b: string, c: string, needle: string)
    requires Contains(b, needle)
    ensures Contains(a + b + c, needle)
  {
    var i :| 0 <= i <= |b| && OccursAt(b, needle, i);
    assert (a + b + c)[|a| + i..|a| + i + |needle|] == b[i..i + |needle|];
    assert OccursAt(a + b + c, needle, |a| + i);
  }
}
