/** The few `str` operations of Python that the models use, on `seq<char>`. */
module Strings {

  /** `s.startswith(p)` */
  predicate StartsWith(s: string, p: string) {
    p <= s
  }

  /** `s.endswith(c)` for a one-character suffix. */
  predicate EndsWithChar(s: string, c: char) {
    |s| > 0 && s[|s| - 1] == c
  }

  /** `s[:-1]` for a non-empty `s`. */
  function DropLast(s: string): (r: string)
    requires |s| > 0
    ensures |r| == |s| - 1 && r + [s[|s| - 1]] == s
  {
    s[..|s| - 1]
  }

  /** `pat` occurs in `s` at index `k`. */
  predicate OccursAt(s: string, pat: string, k: int) {
    0 <= k && k + |pat| <= |s| && s[k..k + |pat|] == pat
  }

  /** `pat in s` */
  predicate Contains(s: string, pat: string) {
    exists k | 0 <= k <= |s| :: OccursAt(s, pat, k)
  }

  /** `s.replace(pat, "")`: every leftmost, non-overlapping occurrence of the
      non-empty `pat` removed. */
  function RemoveAll(s: string, pat: string): (r: string)
    requires pat != []
    ensures forall c :: c in r ==> c in s
    decreases |s|
  {
    if |s| < |pat| then s
    else if s[..|pat|] == pat then RemoveAll(s[|pat|..], pat)
    else [s[0]] + RemoveAll(s[1..], pat)
  }

  /** Removing a pattern that does not occur leaves the string as it is. */
  lemma {:induction false} RemoveAllAbsent(s: string, pat: string)
    requires pat != [] && !Contains(s, pat)
    ensures RemoveAll(s, pat) == s
    decreases |s|
  {
    if |s| >= |pat| {
      assert !OccursAt(s, pat, 0);
      assert s[..|pat|] != pat;
      forall k | OccursAt(s[1..], pat, k) ensures false {
        assert s[1..][k..k + |pat|] == s[k + 1..k + 1 + |pat|];
        assert OccursAt(s, pat, k + 1);
      }
      RemoveAllAbsent(s[1..], pat);
    }
  }

  /** A leading occurrence is dropped and the scan resumes after it. */
  lemma RemoveAllLeading(pat: string, t: string)
    requires pat != []
    ensures RemoveAll(pat + t, pat) == RemoveAll(t, pat)
  {
    assert (pat + t)[..|pat|] == pat;
    assert (pat + t)[|pat|..] == t;
  }

  /** Text in which no occurrence starts is copied through, in order. */
  lemma {:induction false} RemoveAllKeepsPrefix(a: string, b: string, pat: string)
    requires pat != []
    requires forall p :: 0 <= p < |a| ==> !OccursAt(a + b, pat, p)
    ensures RemoveAll(a + b, pat) == a + RemoveAll(b, pat)
    decreases |a|
  {
    if a == [] {
      assert a + b == b;
    } else {
      var s := a + b;
      assert !OccursAt(s, pat, 0);
      assert s[1..] == a[1..] + b;
      forall p | 0 <= p < |a[1..]| ensures !OccursAt(a[1..] + b, pat, p) {
        if OccursAt(a[1..] + b, pat, p) {
          assert s[1..][p..p + |pat|] == s[p + 1..p + 1 + |pat|];
          assert OccursAt(s, pat, p + 1);
        }
      }
      RemoveAllKeepsPrefix(a[1..], b, pat);
      assert s[0] == a[0];
      assert a == [a[0]] + a[1..];
    }
  }

  /** `"xBasic y".replace("Basic ", "")` is `"xy"`: an occurrence inside the
      string is removed and the text around it kept. */
  lemma RemoveAllMiddleExample()
    ensures RemoveAll("xBasic y", "Basic ") == "xy"
  {
    var pat := "Basic ";
    assert "xBasic y" == "x" + (pat + "y");
    assert "xBasic y"[0..|pat|][0] != pat[0];
    RemoveAllKeepsPrefix("x", pat + "y", pat);
    RemoveAllLeading(pat, "y");
    assert "x" + "y" == "xy";
  }

  /** Nothing is ever added: the result is never longer than the input. */
  lemma {:induction false} RemoveAllShrinks(s: string, pat: string)
    requires pat != []
    ensures |RemoveAll(s, pat)| <= |s|
    decreases |s|
  {
    if |s| >= |pat| {
      if s[..|pat|] == pat {
        RemoveAllShrinks(s[|pat|..], pat);
      } else {
        RemoveAllShrinks(s[1..], pat);
      }
    }
  }

  /** Index of the first `c` in `s`; `s.split(c)[0]` is `s[..IndexOf(s, c)]`. */
  function IndexOf(s: string, c: char): (k: nat)
    requires c in s
    ensures k < |s| && s[k] == c
    ensures c !in s[..k]
  {
    if s[0] == c then 0
    else
      assert c in s[1..] by { var j :| 0 <= j < |s| && s[j] == c; assert s[1..][j - 1] == c; }
      var k := IndexOf(s[1..], c);
      assert s[..k + 1] == [s[0]] + s[1..][..k];
      k + 1
  }
}
