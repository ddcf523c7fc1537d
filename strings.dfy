/**
 * The Python `str` operations the scripts rely on: `startswith`, `endswith`,
 * `in`, `replace`, `split` on one character, and the ordering used by `sorted`.
 */
module Strings {

  /** `s.startswith(prefix)` */
  predicate StartsWith(s: string, prefix: string) {
    |prefix| <= |s| && s[..|prefix|] == prefix
  }

  /** `s.endswith(suffix)` */
  predicate EndsWith(s: string, suffix: string) {
    |suffix| <= |s| && s[|s| - |suffix|..] == suffix
  }

  /** `pat in s` */
  predicate Contains(s: string, pat: string)
    decreases |s|
  {
    StartsWith(s, pat) || (|s| > 0 && Contains(s[1..], pat))
  }

  /** The elements of a sequence, as a set. */
  function Elems<T>(s: seq<T>): set<T> {
    set x | x in s
  }

  /**
   * `s.replace(pat, rep)`: every occurrence of `pat`, scanning left to right
   * without overlaps, is replaced by `rep`.  The scripts only replace
   * non-empty patterns.
   */
  function Replace(s: string, pat: string, rep: string): (r: string)
    requires |pat| > 0
    ensures !Contains(s, pat) ==> r == s
    ensures forall c :: c !in s && c !in rep ==> c !in r
    decreases |s|
  {
    if |s| < |pat| then s
    else if s[..|pat|] == pat then rep + Replace(s[|pat|..], pat, rep)
    else [s[0]] + Replace(s[1..], pat, rep)
  }

  /**
   * A pattern whose first character occurs nowhere else in it cannot overlap
   * the end of a string that does not contain it: so a string `c` followed by
   * one copy of such a pattern has exactly that copy replaced.
   */
  lemma {:induction false} ReplaceAtEnd(c: string, pat: string, rep: string)
    requires |pat| > 0 && pat[0] !in pat[1..]
    requires !Contains(c, pat)
    ensures Replace(c + pat, pat, rep) == c + rep
    decreases |c|
  {
    var s := c + pat;
    if c == [] {
      assert s[..|pat|] == pat && s[|pat|..] == [];
      assert Replace(s, pat, rep) == rep + Replace([], pat, rep);
    } else {
      assert s[..|pat|] != pat by {
        NoPatternAtStart(c, pat);
      }
      assert !Contains(c[1..], pat);
      ReplaceAtEnd(c[1..], pat, rep);
      assert s[1..] == c[1..] + pat;
      calc {
        Replace(s, pat, rep);
        [s[0]] + Replace(s[1..], pat, rep);
        [c[0]] + (c[1..] + rep);
        { assert c == [c[0]] + c[1..]; }
        c + rep;
      }
    }
  }

  /** `c + pat` does not start with `pat` when `c` is non-empty and free of it. */
  lemma NoPatternAtStart(c: string, pat: string)
    requires |pat| > 0 && pat[0] !in pat[1..]
    requires c != [] && !Contains(c, pat)
    ensures (c + pat)[..|pat|] != pat
  {
    var s := c + pat;
    if |c| >= |pat| {
      assert s[..|pat|] == c[..|pat|];
      assert !StartsWith(c, pat);
    } else {
      assert s[|c|] == pat[0];
      assert pat[|c|] == pat[1..][|c| - 1];
    }
  }

  /**
   * Appending a string `q` that starts with the pattern's first character
   * (and does not contain the pattern) creates no occurrence of the pattern.
   */
  lemma {:induction false} NoNewOccurrence(c: string, q: string, pat: string)
    requires |pat| > 0 && pat[0] !in pat[1..]
    requires !Contains(c, pat) && !Contains(q, pat)
    requires |q| > 0 && q[0] == pat[0]
    ensures !Contains(c + q, pat)
    decreases |c|
  {
    if c != [] {
      var s := c + q;
      assert !StartsWith(s, pat) by {
        if |c| >= |pat| {
          assert s[..|pat|] == c[..|pat|];
        } else if |pat| <= |s| {
          assert s[|c|] == pat[0];
          assert pat[|c|] == pat[1..][|c| - 1];
        }
      }
      assert s[1..] == c[1..] + q;
      NoNewOccurrence(c[1..], q, pat);
    } else {
      assert c + q == q;
    }
  }

  /** A string ending with the pattern contains it. */
  lemma {:induction false} ContainsAppended(a: string, pat: string)
    ensures Contains(a + pat, pat)
    decreases |a|
  {
    if a == [] {
      assert (a + pat)[..|pat|] == pat;
    } else {
      assert (a + pat)[1..] == a[1..] + pat;
      ContainsAppended(a[1..], pat);
    }
  }

  /** Python's `a < b` on strings: lexicographic order of code points. */
  predicate Less(a: string, b: string)
    decreases |a|
  {
    |b| > 0 && (|a| == 0 || a[0] < b[0] || (a[0] == b[0] && Less(a[1..], b[1..])))
  }

  lemma {:induction false} LessIrreflexive(a: string)
    ensures !Less(a, a)
    decreases |a|
  {
    if |a| > 0 {
      LessIrreflexive(a[1..]);
    }
  }

  lemma {:induction false} LessTransitive(a: string, b: string, c: string)
    requires Less(a, b) && Less(b, c)
    ensures Less(a, c)
    decreases |a|
  {
    if |a| > 0 && a[0] == b[0] && b[0] == c[0] {
      LessTransitive(a[1..], b[1..], c[1..]);
    }
  }

  lemma {:induction false} LessTotal(a: string, b: string)
    requires a != b
    ensures Less(a, b) || Less(b, a)
    decreases |a|
  {
    if |a| > 0 && |b| > 0 && a[0] == b[0] {
      assert a == [a[0]] + a[1..] && b == [b[0]] + b[1..];
      LessTotal(a[1..], b[1..]);
    }
  }

  lemma LessAsymmetric(a: string, b: string)
    requires Less(a, b)
    ensures !Less(b, a)
  {
    if Less(b, a) {
      LessTransitive(a, b, a);
      LessIrreflexive(a);
    }
  }

  /** Sorted in increasing order without repetitions. */
  predicate StrictlySorted(s: seq<string>) {
    forall i, j :: 0 <= i < j < |s| ==> Less(s[i], s[j])
  }

  /** A strictly sorted sequence has no repetitions. */
  lemma SortedDistinct(s: seq<string>)
    requires StrictlySorted(s)
    ensures forall i, j :: 0 <= i < j < |s| ==> s[i] != s[j]
  {
    forall i, j | 0 <= i < j < |s| ensures s[i] != s[j] {
      LessIrreflexive(s[i]);
    }
  }

  /** Inserts `x` in its place in a strictly sorted sequence, unless it is already there. */
  function Insert(s: seq<string>, x: string): (r: seq<string>)
    requires StrictlySorted(s)
    ensures StrictlySorted(r)
    ensures Elems(r) == Elems(s) + {x}
    decreases |s|
  {
    if s == [] then [x]
    else if x == s[0] then
      s
    else if Less(x, s[0]) then
      assert StrictlySorted([x] + s) by {
        forall i, j | 0 <= i < j < |s| + 1 ensures Less(([x] + s)[i], ([x] + s)[j]) {
          if i == 0 && j > 1 { LessTransitive(x, s[0], s[j - 1]); }
        }
      }
      [x] + s
    else
      LessTotal(x, s[0]);
      var t := Insert(s[1..], x);
      assert s == [s[0]] + s[1..];
      assert forall y :: y in t ==> Less(s[0], y) by {
        forall y | y in t ensures Less(s[0], y) {
          assert y in Elems(t);
          if y != x {
            assert y in Elems(s[1..]);
            var k :| 0 <= k < |s| - 1 && s[1..][k] == y;
            assert s[k + 1] == y;
          }
        }
      }
      assert StrictlySorted([s[0]] + t) by {
        forall i, j | 0 <= i < j < |t| + 1 ensures Less(([s[0]] + t)[i], ([s[0]] + t)[j]) {
          assert ([s[0]] + t)[j] == t[j - 1];
          if i > 0 { assert ([s[0]] + t)[i] == t[i - 1]; }
        }
      }
      assert Elems([s[0]] + t) == {s[0]} + Elems(t);
      assert Elems(s) == {s[0]} + Elems(s[1..]);
      [s[0]] + t
  }

  /** `sorted(set(xs))` */
  function SortedSet(xs: seq<string>): (r: seq<string>)
    ensures StrictlySorted(r)
    ensures Elems(r) == Elems(xs)
  {
    if xs == [] then []
    else
      var init := xs[..|xs| - 1];
      assert xs == init + [xs[|xs| - 1]];
      Insert(SortedSet(init), xs[|xs| - 1])
  }

  /** A strictly sorted sequence is determined by its elements. */
  lemma {:induction false} SortedUnique(a: seq<string>, b: seq<string>)
    requires StrictlySorted(a) && StrictlySorted(b)
    requires Elems(a) == Elems(b)
    ensures a == b
    decreases |a|
  {
    assert |a| > 0 ==> a[0] in Elems(b);
    assert |b| > 0 ==> b[0] in Elems(a);
    if a != [] && b != [] {
      if a[0] != b[0] {
        assert a[0] in Elems(b) && b[0] in Elems(a);
        var k :| 0 <= k < |b| && b[k] == a[0];
        var m :| 0 <= m < |a| && a[m] == b[0];
        assert Less(b[0], a[0]) && Less(a[0], b[0]);
        LessAsymmetric(a[0], b[0]);
      }
      assert a[0] !in a[1..] by {
        forall j | 1 <= j < |a| ensures a[j] != a[0] {
          LessIrreflexive(a[0]);
        }
      }
      assert b[0] !in b[1..] by {
        forall j | 1 <= j < |b| ensures b[j] != b[0] {
          LessIrreflexive(b[0]);
        }
      }
      assert a == [a[0]] + a[1..] && b == [b[0]] + b[1..];
      assert Elems(a[1..]) == Elems(a) - {a[0]};
      assert Elems(b[1..]) == Elems(b) - {b[0]};
      SortedUnique(a[1..], b[1..]);
    }
  }

  /** `sep.join(parts)` */
  function Joined(parts: seq<string>, sep: char): string
    decreases |parts|
  {
    if |parts| == 0 then ""
    else if |parts| == 1 then parts[0]
    else parts[0] + [sep] + Joined(parts[1..], sep)
  }

  /**
   * The joined string ends with the last piece, and when there are several
   * pieces a separator stands right before it.
   */
  lemma {:induction false} JoinedEndsWithLast(parts: seq<string>, sep: char)
    requires |parts| > 0
    ensures EndsWith(Joined(parts, sep), Last(parts))
    ensures |parts| > 1 ==>
      |Last(parts)| < |Joined(parts, sep)| &&
      Joined(parts, sep)[|Joined(parts, sep)| - |Last(parts)| - 1] == sep
    decreases |parts|
  {
    if |parts| > 1 {
      var rest := parts[1..];
      var j, l := Joined(rest, sep), Last(parts);
      assert Last(rest) == l;
      JoinedEndsWithLast(rest, sep);
      var s := parts[0] + [sep] + j;
      assert Joined(parts, sep) == s;
      assert s[|s| - |l|..] == j[|j| - |l|..];
      if |rest| == 1 {
        assert j == l;
        assert s[|s| - |l| - 1] == sep;
      } else {
        assert s[|s| - |l| - 1] == j[|j| - |l| - 1];
      }
    }
  }

  /**
   * `s.split(sep)` for a one-character separator: never empty, no piece holds
   * the separator, and joining the pieces back gives `s`.
   */
  function Split(s: string, sep: char): (r: seq<string>)
    ensures |r| > 0
    ensures forall k :: 0 <= k < |r| ==> sep !in r[k]
    ensures Joined(r, sep) == s
    decreases |s|
  {
    if s == [] then [""]
    else
      var rest := Split(s[1..], sep);
      if s[0] == sep then
        assert [sep] + s[1..] == s;
        [""] + rest
      else
        assert s == [s[0]] + s[1..];
        assert |rest| > 1 ==> Joined(rest, sep) == rest[0] + [sep] + Joined(rest[1..], sep);
        [[s[0]] + rest[0]] + rest[1..]
  }

  /** The last element of a non-empty sequence (Python's `xs[-1]`). */
  /** The indices below `m` that satisfy `p`. */
  ghost function Below(m: nat, p: nat -> bool): set<nat> {
    set k | 0 <= k < m && p(k)
  }

  /** One more index adds itself to the count when it satisfies `p`. */
  lemma BelowStep(m: nat, p: nat -> bool)
    requires m > 0
    ensures |Below(m, p)| == |Below(m - 1, p)| + (if p(m - 1) then 1 else 0)
  {
    if p(m - 1) {
      assert Below(m, p) == Below(m - 1, p) + {m - 1};
    } else {
      assert Below(m, p) == Below(m - 1, p);
    }
  }

  /** Predicates agreeing below `m` pick the same indices. */
  lemma BelowAgree(m: nat, p: nat -> bool, q: nat -> bool)
    requires forall k: nat :: k < m ==> p(k) == q(k)
    ensures Below(m, p) == Below(m, q)
  {
  }

  /** Occurrences in a concatenation add up. */
  lemma CountAppend<T>(whole: seq<T>, a: seq<T>, b: seq<T>, x: T)
    requires whole == a + b
    ensures multiset(whole)[x] == multiset(a)[x] + multiset(b)[x]
  {
    assert multiset(a + b) == multiset(a) + multiset(b);
  }

  function Last<T>(xs: seq<T>): T
    requires |xs| > 0
  {
    xs[|xs| - 1]
  }

  /** A string without the separator splits into itself. */
  lemma {:induction false} SplitWithoutSeparator(s: string, sep: char)
    requires sep !in s
    ensures Split(s, sep) == [s]
    decreases |s|
  {
    if s != [] {
      SplitWithoutSeparator(s[1..], sep);
      assert s == [s[0]] + s[1..];
    }
  }

  /** Splitting at one separator splits the two sides independently. */
  lemma {:induction false} SplitAround(a: string, b: string, sep: char)
    ensures Split(a + [sep] + b, sep) == Split(a, sep) + Split(b, sep)
    decreases |a|
  {
    var s := a + [sep] + b;
    if a == [] {
      assert s[1..] == b;
    } else {
      assert s[1..] == a[1..] + [sep] + b;
      SplitAround(a[1..], b, sep);
    }
  }
}
