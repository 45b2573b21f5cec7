/**
 * The handful of java.lang.String operations the renderer and the endpoint
 * resolver rely on: join, split on the line-break pattern `\r?\n`, indexOf,
 * contains, replace and ASCII lower-casing.
 */
module Text {

  /* ------------------------------------------------------------------ join */

  /** `String.join(sep, parts)`: the parts with `sep` between neighbours. */
  function Join(sep: string, parts: seq<string>): string
  {
    if |parts| == 0 then ""
    else if |parts| == 1 then parts[0]
    else parts[0] + sep + Join(sep, parts[1..])
  }

  /** What a builder holds after `append(part + sep)` for every part in turn. */
  function Terminated(sep: string, parts: seq<string>): string
  {
    if |parts| == 0 then "" else parts[0] + sep + Terminated(sep, parts[1..])
  }

  /** `prefix + s` for every element, order kept. */
  function PrefixEach(prefix: string, parts: seq<string>): (r: seq<string>)
    ensures |r| == |parts|
    ensures forall i :: 0 <= i < |parts| ==> r[i] == prefix + parts[i]
  {
    if |parts| == 0 then [] else [prefix + parts[0]] + PrefixEach(prefix, parts[1..])
  }

  /** No element contains a newline character. */
  predicate NoNewlines(parts: seq<string>)
  {
    forall i :: 0 <= i < |parts| ==> '\n' !in parts[i]
  }

  lemma JoinSnoc(sep: string, init: seq<string>, last: string)
    requires |init| > 0
    ensures Join(sep, init + [last]) == Join(sep, init) + sep + last
    decreases |init|
  {
    if |init| == 1 {
      assert init + [last] == [init[0], last];
    } else {
      assert (init + [last])[1..] == init[1..] + [last];
      JoinSnoc(sep, init[1..], last);
    }
  }

  lemma {:induction false} TerminatedAppend(sep: string, a: seq<string>, b: seq<string>)
    ensures Terminated(sep, a + b) == Terminated(sep, a) + Terminated(sep, b)
  {
    if |a| == 0 {
      assert a + b == b;
    } else {
      assert (a + b)[1..] == a[1..] + b;
      TerminatedAppend(sep, a[1..], b);
    }
  }

  /** Joining `a + b` puts a separator after every part of `a`. */
  lemma {:induction false} JoinAppend(sep: string, a: seq<string>, b: seq<string>)
    requires |b| > 0
    ensures Join(sep, a + b) == Terminated(sep, a) + Join(sep, b)
  {
    if |a| == 0 {
      assert a + b == b;
    } else {
      assert (a + b)[1..] == a[1..] + b;
      JoinAppend(sep, a[1..], b);
    }
  }

  /** A non-empty list joined and then followed by one more separator is the
      list terminated part by part. */
  lemma {:induction false} JoinThenSeparator(sep: string, parts: seq<string>)
    requires |parts| > 0
    ensures Join(sep, parts) + sep == Terminated(sep, parts)
  {
    if |parts| == 1 {
    } else {
      JoinThenSeparator(sep, parts[1..]);
    }
  }

  lemma {:induction false} PrefixEachNoNewlines(prefix: string, parts: seq<string>)
    requires '\n' !in prefix
    requires NoNewlines(parts)
    ensures NoNewlines(PrefixEach(prefix, parts))
  {
    var r := PrefixEach(prefix, parts);
    forall i | 0 <= i < |r|
      ensures '\n' !in r[i]
    {
      assert r[i] == prefix + parts[i];
    }
  }

  /* --------------------------------------- splitting at a single character */

  /** Splits at every occurrence of c, keeping every piece (one more piece
      than there are occurrences). The inverse of joining with [c]. */
  function SplitAt(c: char, s: string): (r: seq<string>)
    ensures |r| >= 1
  {
    if |s| == 0 then [""]
    else if s[0] == c then [""] + SplitAt(c, s[1..])
    else
      var rest := SplitAt(c, s[1..]);
      [[s[0]] + rest[0]] + rest[1..]
  }

  /** Cutting a text into lines. */
  function SplitAtNewline(s: string): seq<string>
  {
    SplitAt('\n', s)
  }

  lemma {:induction false} SplitAtSkip(c: char, p: string, t: string)
    requires c !in p
    ensures SplitAt(c, p + t)
         == [p + SplitAt(c, t)[0]] + SplitAt(c, t)[1..]
    decreases |p|
  {
    var st := SplitAt(c, t);
    if |p| == 0 {
      assert p + t == t;
      assert p + st[0] == st[0];
      assert st == [st[0]] + st[1..];
    } else {
      assert (p + t)[0] == p[0];
      assert (p + t)[1..] == p[1..] + t;
      SplitAtSkip(c, p[1..], t);
      assert [p[0]] + (p[1..] + st[0]) == p + st[0];
    }
  }

  /** Splitting the c-join of parts free of c gives the parts back. */
  lemma {:induction false} SplitAtOfJoin(c: char, parts: seq<string>)
    requires |parts| > 0
    requires forall i :: 0 <= i < |parts| ==> c !in parts[i]
    ensures SplitAt(c, Join([c], parts)) == parts
    decreases |parts|
  {
    if |parts| == 1 {
      SplitAtSkip(c, parts[0], "");
      assert parts[0] + "" == parts[0];
    } else {
      var rest := Join([c], parts[1..]);
      assert Join([c], parts) == parts[0] + ([c] + rest);
      SplitAtSkip(c, parts[0], [c] + rest);
      var nr := [c] + rest;
      assert nr[0] == c && nr[1..] == rest;
      assert SplitAt(c, nr) == [""] + SplitAt(c, rest);
      assert parts[0] + "" == parts[0];
      SplitAtOfJoin(c, parts[1..]);
      assert [parts[0]] + parts[1..] == parts;
    }
  }

  /** Splitting the newline-join of newline-free parts gives the parts back. */
  lemma {:induction false} SplitAtNewlineOfJoin(parts: seq<string>)
    requires |parts| > 0
    requires NoNewlines(parts)
    ensures SplitAtNewline(Join("\n", parts)) == parts
  {
    SplitAtOfJoin('\n', parts);
  }

  /** True when a match of the pattern `\r?\n` starts at index i. */
  predicate BreakAt(s: string, i: nat)
  {
    i < |s| && (s[i] == '\n' || (s[i] == '\r' && i + 1 < |s| && s[i + 1] == '\n'))
  }

  /** The pieces between successive matches of `\r?\n`, scanning left to right,
      with every piece kept (the regex split before Java drops trailing empties). */
  function SplitLineBreaks(s: string): (r: seq<string>)
    ensures |r| >= 1
  {
    if |s| == 0 then [""]
    else if s[0] == '\n' then [""] + SplitLineBreaks(s[1..])
    else if s[0] == '\r' && |s| >= 2 && s[1] == '\n' then [""] + SplitLineBreaks(s[2..])
    else
      var rest := SplitLineBreaks(s[1..]);
      [[s[0]] + rest[0]] + rest[1..]
  }

  /** Every `\r\n` pair rewritten as a single `\n`. */
  function NormalizeLineBreaks(s: string): string
  {
    if |s| == 0 then ""
    else if |s| >= 2 && s[0] == '\r' && s[1] == '\n' then "\n" + NormalizeLineBreaks(s[2..])
    else [s[0]] + NormalizeLineBreaks(s[1..])
  }

  /** The string with all trailing newline characters removed. */
  function TrimTrailingNewlines(s: string): (r: string)
    ensures |r| <= |s| && r == s[..|r|]
    ensures |r| == 0 || r[|r| - 1] != '\n'
  {
    if |s| > 0 && s[|s| - 1] == '\n' then TrimTrailingNewlines(s[..|s| - 1]) else s
  }

  /** Drops empty strings from the end of the list. */
  function DropTrailingEmpty(parts: seq<string>): (r: seq<string>)
    ensures |r| <= |parts| && r == parts[..|r|]
    ensures |r| == 0 || r[|r| - 1] != ""
  {
    if |parts| > 0 && parts[|parts| - 1] == "" then DropTrailingEmpty(parts[..|parts| - 1])
    else parts
  }

  /** Java's `s.split("\\r?\\n")`: with no match the result is `[s]` itself
      (so "" gives [""]); otherwise the pieces between matches with trailing
      empty pieces removed (so "\n" gives []). */
  function SplitLines(s: string): seq<string>
  {
    if '\n' !in s then [s] else DropTrailingEmpty(SplitLineBreaks(s))
  }

  lemma {:induction false} SplitLineBreaksNoNewlines(s: string)
    ensures NoNewlines(SplitLineBreaks(s))
  {
    if |s| == 0 {
    } else if s[0] == '\n' {
      SplitLineBreaksNoNewlines(s[1..]);
    } else if s[0] == '\r' && |s| >= 2 && s[1] == '\n' {
      SplitLineBreaksNoNewlines(s[2..]);
    } else {
      SplitLineBreaksNoNewlines(s[1..]);
      var rest := SplitLineBreaks(s[1..]);
      var r := SplitLineBreaks(s);
      forall i | 0 <= i < |r|
        ensures '\n' !in r[i]
      {
        if i == 0 {
          assert r[0] == [s[0]] + rest[0];
        } else {
          assert r[i] == rest[i];
        }
      }
    }
  }

  /** Rejoining the regex pieces with "\n" yields the string with each `\r\n`
      normalised to `\n`: the split loses the `\r` of a CRLF and nothing else. */
  lemma {:induction false} JoinOfSplitLineBreaks(s: string)
    ensures Join("\n", SplitLineBreaks(s)) == NormalizeLineBreaks(s)
    decreases |s|
  {
    if |s| == 0 {
    } else if s[0] == '\n' {
      JoinOfSplitLineBreaks(s[1..]);
      JoinAfterEmpty(SplitLineBreaks(s[1..]));
    } else if s[0] == '\r' && |s| >= 2 && s[1] == '\n' {
      JoinOfSplitLineBreaks(s[2..]);
      JoinAfterEmpty(SplitLineBreaks(s[2..]));
    } else {
      JoinOfSplitLineBreaks(s[1..]);
      JoinExtendFirst(s[0], SplitLineBreaks(s[1..]));
    }
  }

  lemma {:induction false} JoinAfterEmpty(rest: seq<string>)
    requires |rest| > 0
    ensures Join("\n", [""] + rest) == "\n" + Join("\n", rest)
  {
    assert ([""] + rest)[1..] == rest;
  }

  lemma {:induction false} JoinExtendFirst(c: char, rest: seq<string>)
    requires |rest| > 0
    ensures Join("\n", [[c] + rest[0]] + rest[1..]) == [c] + Join("\n", rest)
  {
    var r := [[c] + rest[0]] + rest[1..];
    if |rest| == 1 {
      assert r == [[c] + rest[0]];
    } else {
      assert r[0] == [c] + rest[0] && r[1..] == rest[1..] && |r| == |rest|;
      var tail := Join("\n", rest[1..]);
      assert Join("\n", r) == r[0] + "\n" + tail;
      assert Join("\n", rest) == rest[0] + "\n" + tail;
      assert ([c] + rest[0]) + "\n" + tail == [c] + (rest[0] + "\n" + tail);
    }
  }

  lemma {:induction false} TrimAfterNewline(s: string)
    ensures TrimTrailingNewlines(s + "\n") == TrimTrailingNewlines(s)
  {
    assert (s + "\n")[..|s + "\n"| - 1] == s;
  }

  lemma {:induction false} JoinOfDropTrailingEmpty(parts: seq<string>)
    requires |parts| > 0
    requires NoNewlines(parts)
    ensures Join("\n", DropTrailingEmpty(parts)) == TrimTrailingNewlines(Join("\n", parts))
    decreases |parts|
  {
    var n := |parts|;
    var init := parts[..n - 1];
    var last := parts[n - 1];
    assert parts == init + [last];
    if last != "" {
      if n == 1 {
        assert Join("\n", parts) == last;
      } else {
        JoinSnoc("\n", init, last);
      }
      var j := Join("\n", parts);
      assert j[|j| - 1] == last[|last| - 1];
      assert last[|last| - 1] in last;
    } else if n == 1 {
      assert DropTrailingEmpty(parts) == DropTrailingEmpty([]);
    } else {
      JoinSnoc("\n", init, last);
      assert Join("\n", parts) == Join("\n", init) + "\n";
      TrimAfterNewline(Join("\n", init));
      assert NoNewlines(init) by {
        forall i | 0 <= i < |init| ensures '\n' !in init[i] { assert init[i] == parts[i]; }
      }
      JoinOfDropTrailingEmpty(init);
    }
  }

  lemma {:induction false} NormalizeWithoutNewline(s: string)
    requires '\n' !in s
    ensures NormalizeLineBreaks(s) == s
  {
    if |s| == 0 {
    } else {
      assert s[1..] == s[1..];
      assert '\n' !in s[1..] by {
        forall c | c in s[1..] ensures c != '\n' { }
      }
      if |s| >= 2 {
        assert s[1] in s;
      }
      NormalizeWithoutNewline(s[1..]);
    }
  }

  /** What Java's `split("\\r?\\n")` keeps: joined back with "\n", its pieces
      are the input with CRLFs normalised and trailing line breaks removed;
      and no piece contains a newline. */
  lemma SplitLinesJoin(s: string)
    ensures Join("\n", SplitLines(s)) == TrimTrailingNewlines(NormalizeLineBreaks(s))
    ensures NoNewlines(SplitLines(s))
  {
    if '\n' !in s {
      NormalizeWithoutNewline(s);
      if |s| > 0 {
        assert s[|s| - 1] in s;
      }
    } else {
      var pieces := SplitLineBreaks(s);
      SplitLineBreaksNoNewlines(s);
      JoinOfSplitLineBreaks(s);
      JoinOfDropTrailingEmpty(pieces);
      var r := DropTrailingEmpty(pieces);
      forall i | 0 <= i < |r| ensures '\n' !in r[i] { assert r[i] == pieces[i]; }
    }
  }

  /* --------------------------------------------------------- searching */

  /** t occurs in s starting at index i. */
  predicate OccursAt(s: string, t: string, i: int)
  {
    0 <= i && i + |t| <= |s| && s[i..i + |t|] == t
  }

  /** `s.indexOf(t, from)`: the first index at or after `from` where t occurs, or -1. */
  function IndexOfFrom(s: string, t: string, from: nat): (r: int)
    requires from <= |s|
    ensures r == -1 || (from <= r && OccursAt(s, t, r))
    ensures forall i :: from <= i && (r == -1 || i < r) ==> !OccursAt(s, t, i)
    decreases |s| - from
  {
    if |s| - from < |t| then -1
    else if s[from..from + |t|] == t then from
    else IndexOfFrom(s, t, from + 1)
  }

  /** `s.indexOf(t)`. */
  function IndexOf(s: string, t: string): int
  {
    IndexOfFrom(s, t, 0)
  }

  /** `s.contains(t)`, which Java defines as `indexOf(t) >= 0`. */
  predicate Contains(s: string, t: string)
  {
    IndexOf(s, t) >= 0
  }

  /** `s.indexOf(c)` for a single character: first index holding c, or -1. */
  function IndexOfChar(s: string, c: char): (r: int)
    ensures -1 <= r < |s|
    ensures r == -1 <==> c !in s
    ensures r >= 0 ==> s[r] == c && c !in s[..r]
  {
    if |s| == 0 then -1
    else if s[0] == c then 0
    else
      var k := IndexOfChar(s[1..], c);
      assert s == [s[0]] + s[1..];
      if k == -1 then -1
      else
        assert s[..k + 1] == [s[0]] + s[1..][..k];
        k + 1
  }

  /* ----------------------------------------------------------- replacing */

  /** `s.replace(t, r)` for a non-empty target: every occurrence of t, found
      left to right without overlap, is replaced by r; the replacement text is
      not searched again. */
  function ReplaceAll(s: string, t: string, r: string): string
    requires |t| > 0
    decreases |s|
  {
    if |s| < |t| then s
    else if s[..|t|] == t then r + ReplaceAll(s[|t|..], t, r)
    else [s[0]] + ReplaceAll(s[1..], t, r)
  }

  /** A prefix that cannot start an occurrence passes through unchanged. */
  lemma {:induction false} ReplaceAllSkip(a: string, s: string, t: string, r: string)
    requires |t| > 0
    requires t[0] !in a
    ensures ReplaceAll(a + s, t, r) == a + ReplaceAll(s, t, r)
    decreases |a|
  {
    var x := a + s;
    if |a| == 0 {
      assert x == s;
    } else if |x| < |t| {
      ReplaceAllShort(s, t, r);
      ReplaceAllShort(x, t, r);
    } else {
      assert x[..|t|][0] == a[0];
      assert x[1..] == a[1..] + s;
      assert t[0] !in a[1..] by { assert forall c :: c in a[1..] ==> c in a; }
      ReplaceAllSkip(a[1..], s, t, r);
      assert a == [a[0]] + a[1..];
    }
  }

  lemma ReplaceAllShort(s: string, t: string, r: string)
    requires |t| > 0 && |s| < |t|
    ensures ReplaceAll(s, t, r) == s
  {
  }

  /** An occurrence at the front is replaced and the scan resumes after it. */
  lemma ReplaceAllHit(s: string, t: string, r: string)
    requires |t| > 0
    ensures ReplaceAll(t + s, t, r) == r + ReplaceAll(s, t, r)
  {
    assert (t + s)[..|t|] == t;
    assert (t + s)[|t|..] == s;
  }

  /** A string with no occurrence of t is left alone. */
  lemma {:induction false} ReplaceAllAbsent(s: string, t: string, r: string)
    requires |t| > 0
    requires forall i :: !OccursAt(s, t, i)
    ensures ReplaceAll(s, t, r) == s
    decreases |s|
  {
    if |s| < |t| {
    } else {
      assert !OccursAt(s, t, 0);
      assert s[..|t|] != t;
      forall i ensures !OccursAt(s[1..], t, i)
      {
        if OccursAt(s[1..], t, i) {
          assert s[1..][i..i + |t|] == s[i + 1..i + 1 + |t|];
          assert OccursAt(s, t, i + 1);
        }
      }
      ReplaceAllAbsent(s[1..], t, r);
      assert s == [s[0]] + s[1..];
    }
  }

  /** A string missing one of t's characters holds no occurrence of t. */
  lemma {:induction false} ReplaceAllMissingChar(s: string, t: string, r: string, j: nat)
    requires j < |t| && t[j] !in s
    ensures ReplaceAll(s, t, r) == s
  {
    assert forall i :: !OccursAt(s, t, i) by {
      forall i | 0 <= i && i + |t| <= |s|
        ensures !OccursAt(s, t, i)
      {
        assert s[i..i + |t|][j] == s[i + j];
      }
    }
    ReplaceAllAbsent(s, t, r);
  }

  /** One occurrence of t that nothing before it could start and that is
      followed by text missing one of t's characters is the only one
      replaced. */
  lemma {:induction false} ReplaceAllOnce(a: string, t: string, b: string, r: string, j: nat)
    requires j < |t| && t[0] !in a && t[j] !in b
    ensures ReplaceAll(a + (t + b), t, r) == a + (r + b)
  {
    ReplaceAllSkip(a, t + b, t, r);
    ReplaceAllHit(b, t, r);
    ReplaceAllMissingChar(b, t, r, j);
  }

  lemma Associate(a: string, b: string, c: string)
    ensures a + (b + c) == (a + b) + c
  {
  }

  /* --------------------------------------------------------- lower case */

  /** `Character.toLowerCase` restricted to ASCII letters. */
  function LowerChar(c: char): char
  {
    if 'A' <= c <= 'Z' then (c as int + 32) as char else c
  }

  /** `String.toLowerCase()` on ASCII text. */
  function ToLowerAscii(s: string): (r: string)
    ensures |r| == |s|
    ensures forall i :: 0 <= i < |s| ==> r[i] == LowerChar(s[i])
  {
    if |s| == 0 then "" else [LowerChar(s[0])] + ToLowerAscii(s[1..])
  }

  /** A word lower-cases to kw when each of its characters does. */
  lemma {:induction false} LowersTo(s: string, kw: string)
    requires |s| == |kw| && forall i :: 0 <= i < |s| ==> LowerChar(s[i]) == kw[i]
    ensures ToLowerAscii(s) == kw
  {
  }
}
