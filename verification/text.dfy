/**
 * The few Python `str` operations the bot relies on, given the meaning
 * Python gives them: `startswith`, `endswith`, the `in` substring test,
 * `replace` (every non-overlapping occurrence, scanned left to right) and
 * the code-point lexicographic order used by `<` and by `list.sort`.
 */
module Text {

  /** `s.startswith(p)` */
  predicate StartsWith(s: string, p: string) {
    |p| <= |s| && s[..|p|] == p
  }

  /** `s.endswith(p)` */
  predicate EndsWith(s: string, p: string) {
    |p| <= |s| && s[|s| - |p|..] == p
  }

  /** Specification of `sub in s`: `sub` starts at some position of `s`. */
  ghost predicate Occurs(sub: string, s: string) {
    exists i :: 0 <= i <= |s| && StartsWith(s[i..], sub)
  }

  /** The executable substring test; it agrees with `Occurs` on every input. */
  function Contains(s: string, sub: string): (b: bool)
    ensures b <==> Occurs(sub, s)
    decreases |s|
  {
    if StartsWith(s, sub) then
      assert s[0..] == s;
      true
    else if |s| == 0 then
      false
    else
      var b := Contains(s[1..], sub);
      assert b ==> Occurs(sub, s) by {
        if b {
          var i :| 0 <= i <= |s[1..]| && StartsWith(s[1..][i..], sub);
          assert s[1..][i..] == s[i + 1..];
        }
      }
      assert Occurs(sub, s) ==> b by {
        if Occurs(sub, s) {
          var i :| 0 <= i <= |s| && StartsWith(s[i..], sub);
          assert i != 0 by { assert s[0..] == s; }
          assert s[1..][i - 1..] == s[i..];
        }
      }
      b
  }

  /** `s.replace(pat, rep)` for a non-empty `pat`. */
  function ReplaceAll(s: string, pat: string, rep: string): (r: string)
    requires |pat| > 0
    decreases |s|
  {
    if StartsWith(s, pat) then rep + ReplaceAll(s[|pat|..], pat, rep)
    else if |s| == 0 then ""
    else [s[0]] + ReplaceAll(s[1..], pat, rep)
  }

  /** A replacement no longer than the pattern never makes the string longer. */
  lemma {:induction false} ReplaceAllNoLonger(s: string, pat: string, rep: string)
    requires |pat| > 0 && |rep| <= |pat|
    ensures |ReplaceAll(s, pat, rep)| <= |s|
    decreases |s|
  {
    if StartsWith(s, pat) {
      ReplaceAllNoLonger(s[|pat|..], pat, rep);
    } else if |s| > 0 {
      ReplaceAllNoLonger(s[1..], pat, rep);
    }
  }

  /** Where `pat` does not occur, `replace` changes nothing. */
  lemma {:induction false} ReplaceAllWithoutOccurrence(s: string, pat: string, rep: string)
    requires |pat| > 0 && !Occurs(pat, s)
    ensures ReplaceAll(s, pat, rep) == s
    decreases |s|
  {
    assert !StartsWith(s, pat) by { assert s[0..] == s; }
    if |s| > 0 {
      assert !Occurs(pat, s[1..]) by {
        forall i | 0 <= i <= |s[1..]| ensures !StartsWith(s[1..][i..], pat) {
          assert s[1..][i..] == s[i + 1..];
        }
      }
      ReplaceAllWithoutOccurrence(s[1..], pat, rep);
      assert s == [s[0]] + s[1..];
    }
  }

  /** A string whose first character is not the first character of `pat` is copied one character at a time. */
  lemma ReplaceAllStep(s: string, pat: string, rep: string)
    requires |pat| > 0 && |s| > 0 && s[0] != pat[0]
    ensures ReplaceAll(s, pat, rep) == [s[0]] + ReplaceAll(s[1..], pat, rep)
  {
    assert !StartsWith(s, pat) by {
      if |pat| <= |s| { assert s[..|pat|][0] == s[0]; }
    }
  }

  /** A prefix that does not even contain the first character of `pat` is copied unchanged. */
  lemma {:induction false} ReplaceAllSkipsPrefix(a: string, b: string, pat: string, rep: string)
    requires |pat| > 0
    requires forall i :: 0 <= i < |a| ==> a[i] != pat[0]
    ensures ReplaceAll(a + b, pat, rep) == a + ReplaceAll(b, pat, rep)
    decreases |a|
  {
    if |a| == 0 {
      assert a + b == b;
    } else {
      var s := a + b;
      assert s[0] == a[0] && s[1..] == a[1..] + b;
      ReplaceAllStep(s, pat, rep);
      ReplaceAllSkipsPrefix(a[1..], b, pat, rep);
      assert a == [a[0]] + a[1..];
    }
  }

  /** Python's `a <= b` on strings: code-point lexicographic order. */
  predicate LexLe(a: string, b: string)
    decreases |a|
  {
    |a| == 0 || (|b| > 0 && (a[0] < b[0] || (a[0] == b[0] && LexLe(a[1..], b[1..]))))
  }

  lemma {:induction false} LexLeReflexive(a: string)
    ensures LexLe(a, a)
    decreases |a|
  {
    if |a| > 0 {
      LexLeReflexive(a[1..]);
    }
  }

  lemma {:induction false} LexLeTotal(a: string, b: string)
    ensures LexLe(a, b) || LexLe(b, a)
    decreases |a|
  {
    if |a| > 0 && |b| > 0 && a[0] == b[0] {
      LexLeTotal(a[1..], b[1..]);
    }
  }

  lemma {:induction false} LexLeAntisymmetric(a: string, b: string)
    requires LexLe(a, b) && LexLe(b, a)
    ensures a == b
    decreases |a|
  {
    if |a| > 0 {
      LexLeAntisymmetric(a[1..], b[1..]);
      assert a == [a[0]] + a[1..];
      assert b == [b[0]] + b[1..];
    }
  }

  lemma {:induction false} LexLeTransitive(a: string, b: string, c: string)
    requires LexLe(a, b) && LexLe(b, c)
    ensures LexLe(a, c)
    decreases |a|
  {
    if |a| > 0 && a[0] == b[0] && b[0] == c[0] {
      LexLeTransitive(a[1..], b[1..], c[1..]);
    }
  }
}
