/** Wiki links to HTML anchors (src/utils/md-utils.ts). `transformLinks`
    replaces every match of `/\[\[([^\]]+)\]\]/g`, scanning left to right and
    resuming after each match, with an anchor to the file's `obsidian://` URI. */
module MdUtils {
  import opened Optional
  import opened Strings
  import opened ObsidianUtils

  /** The regular expression anchored at the start of `s`: `[[`, then the
      greedy run of characters other than `]`, which must be non-empty and be
      followed by `]]`. Giving characters back cannot help, since the class
      excludes `]`, so the run ends at the first `]`. The result is the index
      of that first `]`. */
  function LinkClose(s: string): (r: Option<nat>)
    ensures r.Some? ==> 2 < r.value && r.value + 2 <= |s|
    ensures r.Some? ==> StartsWith(s, "[[") && s[r.value] == ']' && s[r.value + 1] == ']'
    ensures r.Some? ==> ']' !in s[2..r.value]
  {
    if StartsWith(s, "[[") then
      match IndexOfFrom(s, "]", 2)
      case None => None
      case Some(k) =>
        if 2 < k && k + 1 < |s| && s[k + 1] == ']' then
          assert ']' !in s[2..k] by {
            forall j | 2 <= j < k ensures s[j] != ']' {
              assert !OccursAt(s, "]", j);
              assert s[j..j + 1] == [s[j]];
            }
          }
          Some(k)
        else None
    else None
  }

  /** The replacement for a link to `p1`. */
  function Anchor(vaultName: string, p1: string): string {
    "<a href=\"" + ConvertPathToObsidianLink(vaultName, p1) + "\">" + p1 + "</a>"
  }

  /** No position of `s` starts a match. */
  predicate NoLinks(s: string) {
    forall j :: 0 <= j < |s| ==> LinkClose(s[j..]).None?
  }

  /** `transformLinks(app, markdown)`: text outside matches is copied, every
      match becomes an anchor, and the output is never shorter. */
  function TransformLinks(vaultName: string, s: string): (r: string)
    ensures |r| >= |s|
    decreases |s|
  {
    if |s| == 0 then ""
    else
      match LinkClose(s)
      case Some(k) => Anchor(vaultName, s[2..k]) + TransformLinks(vaultName, s[k + 2..])
      case None => [s[0]] + TransformLinks(vaultName, s[1..])
  }

  /** Without any match the text is returned as it is. */
  lemma {:induction false} TransformNoLinks(vaultName: string, s: string)
    requires NoLinks(s)
    ensures TransformLinks(vaultName, s) == s
    decreases |s|
  {
    if |s| > 0 {
      assert s[0..] == s;
      assert NoLinks(s[1..]) by {
        forall j | 0 <= j < |s[1..]| ensures LinkClose(s[1..][j..]).None? {
          assert s[1..][j..] == s[j + 1..];
        }
      }
      TransformNoLinks(vaultName, s[1..]);
      assert s == [s[0]] + s[1..];
    }
  }

  /** A match anywhere makes the output strictly longer: the scan either lands
      on it or consumes it inside an earlier match, and every anchor is longer
      than the link it replaces. */
  lemma {:induction false} TransformGrows(vaultName: string, s: string)
    requires !NoLinks(s)
    ensures |TransformLinks(vaultName, s)| > |s|
    decreases |s|
  {
    var j :| 0 <= j < |s| && LinkClose(s[j..]).Some?;
    match LinkClose(s)
    case Some(k) =>
      var a := Anchor(vaultName, s[2..k]);
      assert |a| > k + 2;
    case None =>
      assert j != 0 by { assert s[0..] == s; }
      assert s[1..][j - 1..] == s[j..];
      TransformGrows(vaultName, s[1..]);
  }

  /** `transformLinks` leaves a text unchanged exactly when it holds no match. */
  lemma TransformIdentity(vaultName: string, s: string)
    ensures TransformLinks(vaultName, s) == s <==> NoLinks(s)
  {
    if NoLinks(s) {
      TransformNoLinks(vaultName, s);
    } else {
      TransformGrows(vaultName, s);
    }
  }

  /** A non-empty target without `]` between `[[` and `]]` is a match. */
  lemma LinkCloseOf(p1: string, rest: string)
    requires |p1| > 0 && ']' !in p1
    ensures LinkClose("[[" + p1 + "]]" + rest) == Some(|p1| + 2)
  {
    var s := "[[" + p1 + "]]" + rest;
    assert s == "[[" + p1 + "]" + ("]" + rest);
    assert '[' != ']';
    IndexAfterFree("[[" + p1, "]", "]" + rest);
    assert s[..2] == "[[";
    assert IndexOfFrom(s, "]", 2) == IndexOfFrom(s, "]", 0) by {
      assert !OccursAt(s, "]", 0) by { assert s[0..1] == "["; }
      assert !OccursAt(s, "]", 1) by { assert s[1..2] == "["; }
    }
    assert s[|p1| + 3] == ']';
  }

  /** No match starts among the first `n` positions of `s`. */
  predicate NoLinkStartsBefore(s: string, n: nat)
    requires n <= |s|
  {
    forall j :: 0 <= j < n ==> LinkClose(s[j..]).None?
  }

  /** The same, position by position: the scan meets no match in its first
      `n` steps. */
  predicate PlainRun(s: string, n: nat)
    requires n <= |s|
    decreases n
  {
    n == 0 || (LinkClose(s).None? && PlainRun(s[1..], n - 1))
  }

  lemma {:induction false} PlainRunOf(s: string, n: nat)
    requires n <= |s| && NoLinkStartsBefore(s, n)
    ensures PlainRun(s, n)
    decreases n
  {
    if n > 0 {
      assert s[0..] == s;
      assert NoLinkStartsBefore(s[1..], n - 1) by {
        forall j | 0 <= j < n - 1 ensures LinkClose(s[1..][j..]).None? {
          assert s[1..][j..] == s[j + 1..];
        }
      }
      PlainRunOf(s[1..], n - 1);
    }
  }

  /** Text in which no match starts is copied as it is, whatever follows it:
      text between matches, such as `a[b ` or `[[]]`, comes out unchanged. */
  lemma TransformPlainPrefix(vaultName: string, a: string, b: string)
    requires NoLinkStartsBefore(a + b, |a|)
    ensures TransformLinks(vaultName, a + b) == a + TransformLinks(vaultName, b)
  {
    PlainRunOf(a + b, |a|);
    TransformPlainRun(vaultName, a, b);
  }

  lemma {:induction false} TransformPlainRun(vaultName: string, a: string, b: string)
    requires PlainRun(a + b, |a|)
    ensures TransformLinks(vaultName, a + b) == a + TransformLinks(vaultName, b)
    decreases |a|
  {
    var s := a + b;
    if |a| > 0 {
      var t := a[1..] + b;
      assert s[1..] == t;
      TransformPlainRun(vaultName, a[1..], b);
      calc {
        TransformLinks(vaultName, s);
        [s[0]] + TransformLinks(vaultName, t);
        [a[0]] + (a[1..] + TransformLinks(vaultName, b));
        { assert a == [a[0]] + a[1..]; }
        a + TransformLinks(vaultName, b);
      }
    } else {
      assert s == b;
    }
  }

  /** Text without `[` starts no match. */
  lemma NoBracketNoLink(a: string, b: string)
    requires '[' !in a
    ensures NoLinkStartsBefore(a + b, |a|)
  {
    forall j | 0 <= j < |a| ensures LinkClose((a + b)[j..]).None? {
      assert (a + b)[j..][0] == a[j];
    }
  }

  /** A link at the start becomes the anchor to its target, and the scan
      resumes right after its closing `]]`. */
  lemma TransformLinkFirst(vaultName: string, p1: string, b: string)
    requires |p1| > 0 && ']' !in p1
    ensures TransformLinks(vaultName, "[[" + p1 + "]]" + b)
      == Anchor(vaultName, p1) + TransformLinks(vaultName, b)
  {
    var link := "[[" + p1 + "]]" + b;
    LinkCloseOf(p1, b);
    assert link[2..|p1| + 2] == p1;
    assert link[|p1| + 4..] == b;
  }

  /** A link after text in which no match starts: the text is copied, the
      link replaced. */
  lemma TransformOneLink(vaultName: string, a: string, p1: string, b: string)
    requires |p1| > 0 && ']' !in p1
    requires NoLinkStartsBefore(a + "[[" + p1 + "]]" + b, |a|)
    ensures TransformLinks(vaultName, a + "[[" + p1 + "]]" + b)
      == a + Anchor(vaultName, p1) + TransformLinks(vaultName, b)
  {
    var link := "[[" + p1 + "]]" + b;
    assert a + "[[" + p1 + "]]" + b == a + link;
    TransformPlainPrefix(vaultName, a, link);
    TransformLinkFirst(vaultName, p1, b);
  }

  /** An empty target, `[[]]`, is not a match. */
  lemma EmptyLinkKept(vaultName: string)
    ensures TransformLinks(vaultName, "[[]]") == "[[]]"
  {
    var s := "[[]]";
    assert LinkClose(s).None? by {
      assert OccursAt(s, "]", 2) by { assert s[2..3] == "]"; }
    }
    assert LinkClose(s[1..]).None? by { assert s[1..][..2] == "[]"; }
    assert LinkClose(s[2..]).None? by { assert s[2..][..1] == "]"; }
    assert LinkClose(s[3..]).None?;
    TransformNoLinks(vaultName, s);
  }
}
