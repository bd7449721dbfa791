/** JavaScript string operations the plugin relies on (`startsWith`, `endsWith`,
    `split` on one character, `join`, `trim`, `<` on strings, number-to-string),
    written over `seq<char>`, with the facts about them that the rest of the
    model needs. */
module Strings {
  import opened Optional

  predicate StartsWith(s: string, prefix: string) {
    |prefix| <= |s| && s[..|prefix|] == prefix
  }

  predicate EndsWith(s: string, suffix: string) {
    |suffix| <= |s| && s[|s| - |suffix|..] == suffix
  }

  // ---------------------------------------------------------------------------
  // split / join on a one-character separator

  /** `s.split(c)`: the pieces between occurrences of `c`; never empty. */
  function Split(s: string, c: char): (parts: seq<string>)
    ensures |parts| >= 1
    ensures forall i :: 0 <= i < |parts| ==> c !in parts[i]
    decreases |s|
  {
    if |s| == 0 then [""]
    else if s[0] == c then [""] + Split(s[1..], c)
    else
      var rest := Split(s[1..], c);
      [[s[0]] + rest[0]] + rest[1..]
  }

  /** `parts.join(c)`. */
  function Join(parts: seq<string>, c: char): string
    decreases |parts|
  {
    if |parts| == 0 then ""
    else if |parts| == 1 then parts[0]
    else parts[0] + [c] + Join(parts[1..], c)
  }

  /** Number of occurrences of `c` in `s`. */
  function CountChar(s: string, c: char): nat
    decreases |s|
  {
    if |s| == 0 then 0 else (if s[0] == c then 1 else 0) + CountChar(s[1..], c)
  }

  lemma JoinCons(p: string, rest: seq<string>, c: char)
    requires |rest| >= 1
    ensures Join([p] + rest, c) == p + [c] + Join(rest, c)
  {
    assert ([p] + rest)[1..] == rest;
  }

  /** Joining the pieces of a split gives back the original text. */
  lemma {:induction false} JoinSplit(s: string, c: char)
    ensures Join(Split(s, c), c) == s
    decreases |s|
  {
    if |s| > 0 {
      JoinSplit(s[1..], c);
      if s[0] == c {
        JoinSplitSeparator(s, c);
      } else {
        JoinSplitOther(s, c);
      }
    }
  }

  lemma JoinSplitSeparator(s: string, c: char)
    requires |s| > 0 && s[0] == c && Join(Split(s[1..], c), c) == s[1..]
    ensures Join(Split(s, c), c) == s
  {
    JoinCons("", Split(s[1..], c), c);
    assert s == [c] + s[1..];
  }

  lemma JoinSplitOther(s: string, c: char)
    requires |s| > 0 && s[0] != c && Join(Split(s[1..], c), c) == s[1..]
    ensures Join(Split(s, c), c) == s
  {
    var rest := Split(s[1..], c);
    assert s == [s[0]] + s[1..];
    if |rest| == 1 {
      assert Split(s, c) == [[s[0]] + rest[0]];
    } else {
      assert rest == [rest[0]] + rest[1..];
      JoinCons([s[0]] + rest[0], rest[1..], c);
      JoinCons(rest[0], rest[1..], c);
    }
  }

  /** Text without the separator is a single piece. */
  lemma {:induction false} SplitNoSeparator(s: string, c: char)
    requires c !in s
    ensures Split(s, c) == [s]
    decreases |s|
  {
    if |s| > 0 {
      assert c !in s[1..] by {
        forall i | 0 <= i < |s[1..]| ensures s[1..][i] != c {
          assert s[1..][i] == s[i + 1];
        }
      }
      SplitNoSeparator(s[1..], c);
      assert s == [s[0]] + s[1..];
    }
  }

  /** Splitting around one separator splits each side independently. */
  lemma {:induction false} SplitAppend(a: string, b: string, c: char)
    ensures Split(a + [c] + b, c) == Split(a, c) + Split(b, c)
    decreases |a|
  {
    var s := a + [c] + b;
    if |a| == 0 {
      assert s == [c] + b;
      assert s[1..] == b;
    } else {
      assert s[0] == a[0];
      assert s[1..] == a[1..] + [c] + b;
      SplitAppend(a[1..], b, c);
      if a[0] == c {
        SplitAppendSeparator(a, s, Split(b, c), c);
      } else {
        SplitAppendOther(a, s, Split(b, c), c);
      }
    }
  }

  lemma SplitAppendSeparator(a: string, s: string, tail: seq<string>, c: char)
    requires |a| > 0 && |s| > 0 && s[0] == c && a[0] == c
    requires Split(s[1..], c) == Split(a[1..], c) + tail
    ensures Split(s, c) == Split(a, c) + tail
  {
  }

  lemma SplitAppendOther(a: string, s: string, tail: seq<string>, c: char)
    requires |a| > 0 && |s| > 0 && s[0] == a[0] && a[0] != c
    requires Split(s[1..], c) == Split(a[1..], c) + tail
    ensures Split(s, c) == Split(a, c) + tail
  {
    var rest := Split(s[1..], c);
    var ra := Split(a[1..], c);
    assert rest[0] == ra[0];
    assert rest[1..] == ra[1..] + tail;
  }

  /** A first piece without the separator comes off the front. */
  lemma SplitLine(a: string, t: string, c: char)
    requires c !in a
    ensures Split(a + [c] + t, c) == [a] + Split(t, c)
  {
    SplitAppend(a, t, c);
    SplitNoSeparator(a, c);
  }

  /** Splitting a join of separator-free pieces recovers the pieces. */
  lemma {:induction false} SplitJoin(parts: seq<string>, c: char)
    requires |parts| >= 1
    requires forall i :: 0 <= i < |parts| ==> c !in parts[i]
    ensures Split(Join(parts, c), c) == parts
    decreases |parts|
  {
    if |parts| == 1 {
      SplitNoSeparator(parts[0], c);
    } else {
      var rest := parts[1..];
      assert parts == [parts[0]] + rest;
      JoinCons(parts[0], rest, c);
      SplitAppend(parts[0], Join(rest, c), c);
      SplitNoSeparator(parts[0], c);
      SplitJoin(rest, c);
    }
  }

  /** A split has one more piece than there are separators. */
  lemma {:induction false} SplitCount(s: string, c: char)
    ensures |Split(s, c)| == CountChar(s, c) + 1
    decreases |s|
  {
    if |s| > 0 {
      SplitCount(s[1..], c);
    }
  }

  /** `s.split(c).slice(0, -1).join(c)`: the text before the last separator,
      or "" when there is none. */
  function DropLastSegment(s: string, c: char): string {
    var parts := Split(s, c);
    Join(parts[..|parts| - 1], c)
  }

  lemma DropLastSegmentAppend(a: string, b: string, c: char)
    requires c !in b
    ensures DropLastSegment(a + [c] + b, c) == a
  {
    SplitAppend(a, b, c);
    SplitNoSeparator(b, c);
    var parts := Split(a + [c] + b, c);
    assert parts[..|parts| - 1] == Split(a, c);
    JoinSplit(a, c);
  }

  lemma DropLastSegmentNoSeparator(s: string, c: char)
    requires c !in s
    ensures DropLastSegment(s, c) == ""
  {
    SplitNoSeparator(s, c);
  }

  // ---------------------------------------------------------------------------
  // string order (JavaScript `<` on strings, code unit by code unit)

  predicate LexLess(a: string, b: string)
    decreases |a|
  {
    if |a| == 0 then |b| > 0
    else |b| > 0 && (a[0] < b[0] || (a[0] == b[0] && LexLess(a[1..], b[1..])))
  }

  lemma {:induction false} LexLessIrreflexive(a: string)
    ensures !LexLess(a, a)
    decreases |a|
  {
    if |a| > 0 {
      LexLessIrreflexive(a[1..]);
    }
  }

  lemma {:induction false} LexLessTransitive(a: string, b: string, c: string)
    requires LexLess(a, b) && LexLess(b, c)
    ensures LexLess(a, c)
    decreases |a|
  {
    if |a| > 0 && a[0] == b[0] && b[0] == c[0] {
      LexLessTransitive(a[1..], b[1..], c[1..]);
    }
  }

  lemma {:induction false} LexLessTotal(a: string, b: string)
    ensures a == b || LexLess(a, b) || LexLess(b, a)
    decreases |a|
  {
    if |a| > 0 && |b| > 0 && a[0] == b[0] {
      LexLessTotal(a[1..], b[1..]);
      if a[1..] == b[1..] {
        assert a == [a[0]] + a[1..] && b == [b[0]] + b[1..];
      }
    }
  }

  lemma LexLessAsymmetric(a: string, b: string)
    requires LexLess(a, b)
    ensures !LexLess(b, a)
  {
    if LexLess(b, a) {
      LexLessTransitive(a, b, a);
      LexLessIrreflexive(a);
    }
  }

  /** Comparing equal-length heads first decides the order of two concatenations. */
  lemma {:induction false} LexLessAppend(a: string, x: string, b: string, y: string)
    requires |a| == |b|
    ensures LexLess(a + x, b + y) <==> LexLess(a, b) || (a == b && LexLess(x, y))
    decreases |a|
  {
    if |a| > 0 {
      assert (a + x)[0] == a[0] && (b + y)[0] == b[0];
      assert (a + x)[1..] == a[1..] + x && (b + y)[1..] == b[1..] + y;
      LexLessAppend(a[1..], x, b[1..], y);
      if a[0] == b[0] && a[1..] == b[1..] {
        assert a == [a[0]] + a[1..] && b == [b[0]] + b[1..];
      }
      if a == b {
        assert a[1..] == b[1..];
      }
    } else {
      assert a + x == x && b + y == y;
    }
  }

  // ---------------------------------------------------------------------------
  // String.prototype.trim

  /** White space and line terminators as `String.prototype.trim` removes them. */
  const JsWhitespace: set<char> := {
    '\t', '\n', '\U{000B}', '\U{000C}', '\r', ' ', '\U{00A0}', '\U{1680}',
    '\U{2000}', '\U{2001}', '\U{2002}', '\U{2003}', '\U{2004}', '\U{2005}',
    '\U{2006}', '\U{2007}', '\U{2008}', '\U{2009}', '\U{200A}',
    '\U{2028}', '\U{2029}', '\U{202F}', '\U{205F}', '\U{3000}', '\U{FEFF}'
  }

  predicate IsJsWhitespace(ch: char) {
    ch in JsWhitespace
  }

  predicate AllWhitespace(s: string) {
    forall i :: 0 <= i < |s| ==> IsJsWhitespace(s[i])
  }

  /** Drops leading white space: the result is the suffix of `s` that starts at
      its first non-white-space character. */
  function TrimStart(s: string): (r: string)
    ensures |r| <= |s| && r == s[|s| - |r|..]
    ensures forall i :: 0 <= i < |s| - |r| ==> IsJsWhitespace(s[i])
    ensures |r| > 0 ==> !IsJsWhitespace(r[0])
    decreases |s|
  {
    if |s| > 0 && IsJsWhitespace(s[0]) then
      var t := s[1..];
      var r := TrimStart(t);
      assert forall i :: 1 <= i < |s| ==> s[i] == t[i - 1];
      assert t[|t| - |r|..] == s[|s| - |r|..];
      r
    else s
  }

  /** Drops trailing white space: the result is the prefix of `s` that ends at
      its last non-white-space character. */
  function TrimEnd(s: string): (r: string)
    ensures |r| <= |s| && r == s[..|r|]
    ensures forall i :: |r| <= i < |s| ==> IsJsWhitespace(s[i])
    ensures |r| > 0 ==> !IsJsWhitespace(r[|r| - 1])
    decreases |s|
  {
    if |s| > 0 && IsJsWhitespace(s[|s| - 1]) then
      var r := TrimEnd(s[..|s| - 1]);
      assert s[..|s| - 1][..|r|] == s[..|r|];
      r
    else s
  }

  /** `s.trim()`. */
  function Trim(s: string): (r: string)
    ensures |r| > 0 ==> !IsJsWhitespace(r[0]) && !IsJsWhitespace(r[|r| - 1])
  {
    var t := TrimStart(s);
    var r := TrimEnd(t);
    assert |r| > 0 ==> r[0] == t[0];
    r
  }

  lemma TrimStartSkips(p: string, rest: string)
    requires AllWhitespace(p)
    requires |rest| == 0 || !IsJsWhitespace(rest[0])
    ensures TrimStart(p + rest) == rest
  {
    var s := p + rest;
    var r := TrimStart(s);
    if |rest| > 0 {
      assert s[|p|] == rest[0];
    }
    if |r| > 0 {
      assert s[|s| - |r|] == r[0];
      forall i | 0 <= i < |p| ensures s[i] == p[i] {}
    }
    assert |r| == |rest|;
    assert s[|p|..] == rest;
  }

  lemma TrimEndSkips(rest: string, q: string)
    requires AllWhitespace(q)
    requires |rest| == 0 || !IsJsWhitespace(rest[|rest| - 1])
    ensures TrimEnd(rest + q) == rest
  {
    var s := rest + q;
    var r := TrimEnd(s);
    if |rest| > 0 {
      assert s[|rest| - 1] == rest[|rest| - 1];
    }
    if |r| > 0 {
      assert s[|r| - 1] == r[|r| - 1];
      forall i | |rest| <= i < |s| ensures s[i] == q[i - |rest|] {}
    }
    assert |r| == |rest|;
    assert s[..|rest|] == rest;
  }

  /** `trim` removes exactly the white-space margins: a core that neither starts
      nor ends with white space survives any white-space padding unchanged. */
  lemma TrimPadded(p: string, m: string, q: string)
    requires AllWhitespace(p) && AllWhitespace(q)
    requires |m| == 0 || (!IsJsWhitespace(m[0]) && !IsJsWhitespace(m[|m| - 1]))
    ensures Trim(p + m + q) == m
  {
    if |m| == 0 {
      assert p + m + q == p + q;
      assert AllWhitespace(p + q) by {
        forall i | 0 <= i < |p + q| ensures IsJsWhitespace((p + q)[i]) {
          if i < |p| { assert (p + q)[i] == p[i]; } else { assert (p + q)[i] == q[i - |p|]; }
        }
      }
      TrimStartSkips(p + q, "");
      assert p + q + "" == p + q;
    } else {
      assert p + m + q == p + (m + q);
      assert (m + q)[0] == m[0];
      TrimStartSkips(p, m + q);
      TrimEndSkips(m, q);
    }
  }

  lemma TrimStartNoop(s: string)
    requires |s| == 0 || !IsJsWhitespace(s[0])
    ensures TrimStart(s) == s
  {
  }

  lemma TrimEndNoop(s: string)
    requires |s| == 0 || !IsJsWhitespace(s[|s| - 1])
    ensures TrimEnd(s) == s
  {
  }

  lemma TrimIdempotent(s: string)
    ensures Trim(Trim(s)) == Trim(s)
  {
    var m := Trim(s);
    TrimStartNoop(m);
    TrimEndNoop(m);
  }

  // ---------------------------------------------------------------------------
  // numbers as decimal text

  function DigitChar(d: nat): (ch: char)
    requires d < 10
    ensures '0' <= ch <= '9'
  {
    ('0' as int + d) as char
  }

  /** `${n}` for a non-negative integer. */
  function NatToString(n: nat): (r: string)
    ensures |r| >= 1
    ensures |r| == 1 <==> n < 10
    ensures forall i :: 0 <= i < |r| ==> '0' <= r[i] <= '9'
    decreases n
  {
    if n < 10 then [DigitChar(n)] else NatToString(n / 10) + [DigitChar(n % 10)]
  }

  /** Distinct numbers print differently. */
  lemma {:induction false} NatToStringInjective(a: nat, b: nat)
    requires NatToString(a) == NatToString(b)
    ensures a == b
    decreases a
  {
    if a >= 10 {
      var sa, sb := NatToString(a), NatToString(b);
      assert sa[|sa| - 1] == DigitChar(a % 10) && sb[|sb| - 1] == DigitChar(b % 10);
      assert sa[..|sa| - 1] == NatToString(a / 10);
      assert sb[..|sb| - 1] == NatToString(b / 10);
      NatToStringInjective(a / 10, b / 10);
    }
  }

  // ---------------------------------------------------------------------------
  // substring search

  predicate OccursAt(s: string, pat: string, i: nat) {
    i + |pat| <= |s| && s[i..i + |pat|] == pat
  }

  /** The first index at or after `from` where `pat` occurs in `s`. */
  function IndexOfFrom(s: string, pat: string, from: nat): (r: Option<nat>)
    ensures r.Some? ==> from <= r.value && OccursAt(s, pat, r.value)
    ensures r.Some? ==> forall j: nat :: from <= j < r.value ==> !OccursAt(s, pat, j)
    ensures r.None? ==> forall j: nat :: from <= j ==> !OccursAt(s, pat, j)
    decreases |s| - from
  {
    if from + |pat| > |s| then None
    else if OccursAt(s, pat, from) then Some(from)
    else IndexOfFrom(s, pat, from + 1)
  }

  /** When the first character of `pat` does not occur in `a`, the first
      occurrence of `pat` in `a + pat + b` is the one right after `a`. */
  lemma IndexAfterFree(a: string, pat: string, b: string)
    requires |pat| > 0 && pat[0] !in a
    ensures IndexOfFrom(a + pat + b, pat, 0) == Some(|a|)
  {
    var s := a + pat + b;
    assert s[|a|..|a| + |pat|] == pat;
    assert OccursAt(s, pat, |a|);
    forall j: nat | j < |a| ensures !OccursAt(s, pat, j) {
      assert s[j] == a[j];
      if j + |pat| <= |s| { assert s[j..j + |pat|][0] == s[j]; }
    }
  }
}
