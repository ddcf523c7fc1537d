/**
 * POSIX `os.path.join` and `os.path.basename`, as the scripts use them to
 * build input and output paths.
 */
module Paths {
  import opened Strings

  /** The separator `os.path.join` puts after `a` before a relative part. */
  function Separator(a: string): string {
    if a == "" || EndsWith(a, "/") then "" else "/"
  }

  /**
   * `os.path.join(a, b)`: an absolute `b` replaces `a`; otherwise a `/` is
   * inserted unless `a` is empty or already ends with one.
   */
  function Join(a: string, b: string): string {
    if StartsWith(b, "/") then b else a + Separator(a) + b
  }

  /**
   * `os.path.join(*parts)`, folding from the left.  Python raises TypeError
   * when `parts` is empty; callers check that first.
   */
  function JoinAll(parts: seq<string>): string
    requires |parts| > 0
    decreases |parts|
  {
    if |parts| == 1 then parts[0]
    else Join(JoinAll(parts[..|parts| - 1]), Last(parts))
  }

  /**
   * `os.path.basename(p)`: the text after the last `/`, that is the ending
   * of `p` that holds no `/` and is either all of `p` or preceded by a `/`.
   */
  function Basename(p: string): (r: string)
    ensures '/' !in r
    ensures EndsWith(p, r)
    ensures r == p || (|r| < |p| && p[|p| - |r| - 1] == '/')
  {
    var parts := Split(p, '/');
    JoinedEndsWithLast(parts, '/');
    if |parts| == 1 then
      assert Joined(parts, '/') == parts[0];
      Last(parts)
    else
      Last(parts)
  }

  /** Joining a plain name onto any directory gives back that name as the basename. */
  lemma BasenameOfJoin(a: string, b: string)
    requires '/' !in b
    ensures Basename(Join(a, b)) == b
  {
    assert !StartsWith(b, "/") by {
      if |b| > 0 { assert b[0] == b[..1][0]; }
    }
    if a == "" {
      assert Join(a, b) == b;
      SplitWithoutSeparator(b, '/');
    } else if EndsWith(a, "/") {
      var a0 := a[..|a| - 1];
      assert a == a0 + ['/'];
      assert Join(a, b) == a0 + ['/'] + b;
      BasenameAfterSlash(a0, b);
    } else {
      assert Join(a, b) == a + ['/'] + b;
      BasenameAfterSlash(a, b);
    }
  }

  /** The basename of `a/b` is `b` when `b` holds no `/`. */
  lemma BasenameAfterSlash(a: string, b: string)
    requires '/' !in b
    ensures Basename(a + ['/'] + b) == b
  {
    SplitWithoutSeparator(b, '/');
    SplitAround(a, b, '/');
    assert Split(a + ['/'] + b, '/') == Split(a, '/') + [b];
  }

  /** Whether a string starts with `/` is decided by its first part. */
  lemma StartsWithSlashConcat(x: string, y: string)
    requires x != ""
    ensures StartsWith(x + y, "/") <==> StartsWith(x, "/")
  {
    assert (x + y)[..1] == x[..1];
  }

  /** Whether a string ends with `/` is decided by its last part. */
  lemma EndsWithSlashConcat(x: string, y: string)
    requires y != ""
    ensures EndsWith(x + y, "/") <==> EndsWith(y, "/")
  {
    assert (x + y)[|x + y| - 1..] == y[|y| - 1..];
  }

  lemma JoinAssociativeAbsoluteMiddle(a: string, b: string, c: string)
    requires !StartsWith(c, "/") && StartsWith(b, "/")
    ensures Join(a, Join(b, c)) == Join(Join(a, b), c)
  {
    var bc := b + (Separator(b) + c);
    assert Join(b, c) == bc;
    StartsWithSlashConcat(b, Separator(b) + c);
  }

  lemma JoinAssociativeEmptyMiddle(a: string, c: string)
    requires !StartsWith(c, "/")
    ensures Join(a, Join("", c)) == Join(Join(a, ""), c)
  {
    assert Join("", c) == c;
    var ab := a + Separator(a);
    assert Join(a, "") == ab;
    if a != "" {
      if Separator(a) == "" {
        assert ab == a;
      } else {
        EndsWithSlashConcat(a, "/");
      }
      assert Separator(ab) == "";
    }
  }

  lemma JoinAssociativeRelative(a: string, b: string, c: string)
    requires !StartsWith(c, "/") && !StartsWith(b, "/") && b != ""
    ensures Join(a, Join(b, c)) == Join(Join(a, b), c)
  {
    var sa, sb := Separator(a), Separator(b);
    var bc := b + (sb + c);
    var ab := (a + sa) + b;
    assert Join(b, c) == bc;
    assert Join(a, b) == ab;
    assert !StartsWith(bc, "/") by {
      StartsWithSlashConcat(b, sb + c);
    }
    assert Separator(ab) == sb by {
      EndsWithSlashConcat(a + sa, b);
    }
    calc {
      Join(a, bc);
      (a + sa) + bc;
      ab + sb + c;
      Join(ab, c);
    }
  }

  /** `os.path.join` may be nested either way. */
  lemma JoinAssociative(a: string, b: string, c: string)
    ensures Join(a, Join(b, c)) == Join(Join(a, b), c)
  {
    if StartsWith(c, "/") {
    } else if StartsWith(b, "/") {
      JoinAssociativeAbsoluteMiddle(a, b, c);
    } else if b == "" {
      JoinAssociativeEmptyMiddle(a, c);
    } else {
      JoinAssociativeRelative(a, b, c);
    }
  }

  /** `os.path.join(a, *parts) == os.path.join(a, os.path.join(*parts))` */
  lemma {:induction false} JoinAllPrepend(a: string, parts: seq<string>)
    requires |parts| > 0
    ensures JoinAll([a] + parts) == Join(a, JoinAll(parts))
    decreases |parts|
  {
    var all := [a] + parts;
    if |parts| > 1 {
      var init := parts[..|parts| - 1];
      assert all[..|all| - 1] == [a] + init;
      assert Last(all) == Last(parts);
      JoinAllPrepend(a, init);
      JoinAssociative(a, JoinAll(init), Last(parts));
    } else {
      assert all[..1] == [a];
    }
  }
}
