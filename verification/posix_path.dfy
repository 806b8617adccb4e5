/**
 The string operations `run_script` applies to a script path: `str.lstrip` and
 `str.rstrip` with one character, and `os.path.join` / `os.path.dirname` as the
 POSIX flavour of Python's path module defines them. Paths are plain strings;
 nothing here looks at the file system.
 */
module PosixPath {

  const Sep: char := '/'

  /** `s.lstrip(c)`: every leading `c` removed, nothing else. */
  function LStrip(s: string, c: char): (r: string)
    ensures |r| <= |s| && r == s[|s| - |r|..]
    ensures forall i :: 0 <= i < |s| - |r| ==> s[i] == c
    ensures |r| > 0 ==> r[0] != c
    decreases |s|
  {
    if |s| > 0 && s[0] == c then LStrip(s[1..], c) else s
  }

  /** `s.rstrip(c)`: every trailing `c` removed, nothing else. */
  function RStrip(s: string, c: char): (r: string)
    ensures |r| <= |s| && r == s[..|r|]
    ensures forall i :: |r| <= i < |s| ==> s[i] == c
    ensures |r| > 0 ==> r[|r| - 1] != c
    decreases |s|
  {
    if |s| > 0 && s[|s| - 1] == c then RStrip(s[..|s| - 1], c) else s
  }

  /** Stripping twice strips nothing more. */
  lemma LStripIdempotent(s: string, c: char)
    ensures LStrip(LStrip(s, c), c) == LStrip(s, c)
  {
  }

  /** `os.path.join(a, b)`: an absolute `b` replaces `a`; otherwise `b` follows `a`, with one separator between. */
  function Join(a: string, b: string): (r: string)
    ensures |b| > 0 && b[0] == Sep ==> r == b
    ensures (|b| == 0 || b[0] != Sep) ==> |a| <= |r| && r[..|a|] == a && |b| <= |r| && r[|r| - |b|..] == b
    ensures (|b| == 0 || b[0] != Sep) && |a| > 0 && a[|a| - 1] != Sep ==> r == a + [Sep] + b
    ensures (|b| == 0 || b[0] != Sep) && (|a| == 0 || a[|a| - 1] == Sep) ==> r == a + b
  {
    if |b| > 0 && b[0] == Sep then b
    else if |a| == 0 || a[|a| - 1] == Sep then a + b
    else a + [Sep] + b
  }

  /** `p.rfind('/') + 1`: the position just after the last separator, 0 when there is none. */
  function AfterLastSep(p: string): (i: nat)
    ensures i <= |p|
    ensures i > 0 ==> p[i - 1] == Sep
    ensures forall j :: i <= j < |p| ==> p[j] != Sep
    decreases |p|
  {
    if |p| == 0 then 0
    else if p[|p| - 1] == Sep then |p|
    else AfterLastSep(p[..|p| - 1])
  }

  predicate AllSep(s: string) {
    forall i :: 0 <= i < |s| ==> s[i] == Sep
  }

  /**
   `os.path.dirname(p)`: the text before the last separator, with that run of
   separators trimmed unless the head is nothing but separators (the root).
   */
  function Dirname(p: string): (r: string)
    ensures |r| <= AfterLastSep(p) && r == p[..|r|]
    ensures forall j :: |r| <= j < AfterLastSep(p) ==> p[j] == Sep
    ensures |r| > 0 && r[|r| - 1] == Sep ==> AllSep(r)
    ensures AllSep(p[..AfterLastSep(p)]) ==> r == p[..AfterLastSep(p)]
  {
    var head := p[..AfterLastSep(p)];
    if |head| > 0 && !AllSep(head) then RStrip(head, Sep) else head
  }

  /** A directory as `dirname` hands it out: non-empty, and ending in a separator only when it is the root. */
  predicate DirectoryForm(x: string) {
    |x| > 0 && (x[|x| - 1] != Sep || AllSep(x))
  }

  /** The directory of a final component `name` joined under a directory `x` is `x` again. */
  lemma {:induction false} DirnameOfChild(x: string, name: string)
    requires DirectoryForm(x)
    requires forall j :: 0 <= j < |name| ==> name[j] != Sep
    ensures Dirname(Join(x, name)) == x
  {
    var p := Join(x, name);
    if x[|x| - 1] != Sep {
      assert p == x + [Sep] + name;
      assert p[|x|] == Sep;
      assert AfterLastSep(p) == |x| + 1 by {
        assert forall j :: |x| < j < |p| ==> p[j] == name[j - |x| - 1];
      }
      var head := p[..|x| + 1];
      assert head == x + [Sep];
      assert !AllSep(head) by {
        assert head[|x| - 1] != Sep;
      }
      assert head[..|head| - 1] == x;
    } else {
      assert p == x + name;
      assert p[|x| - 1] == Sep;
      assert AfterLastSep(p) == |x| by {
        assert forall j :: |x| <= j < |p| ==> p[j] == name[j - |x|];
      }
      assert p[..|x|] == x;
    }
  }

  /** `dirname` of a non-empty absolute path is in directory form, so it can serve as a base again. */
  lemma DirnameOfAbsoluteIsDirectory(p: string)
    requires |p| > 0 && p[0] == Sep
    ensures DirectoryForm(Dirname(p))
  {
    assert AfterLastSep(p) >= 1 by {
      assert p[0] == Sep;
    }
    var head := p[..AfterLastSep(p)];
    assert head[0] == Sep;
    if |head| > 0 && !AllSep(head) {
      assert |Dirname(p)| > 0;
    }
  }

  /** Joining `dir/name` in one step is joining `dir`, then `name`. */
  lemma JoinNested(a: string, dir: string, name: string)
    requires |dir| > 0 && dir[0] != Sep && dir[|dir| - 1] != Sep
    requires forall j :: 0 <= j < |name| ==> name[j] != Sep
    ensures Join(a, dir + [Sep] + name) == Join(Join(a, dir), name)
  {
    var base := if |a| > 0 && a[|a| - 1] != Sep then a + [Sep] else a;
    var x := base + dir;
    assert Join(a, dir) == x by {
      JoinRelative(a, dir);
    }
    assert Join(x, name) == x + [Sep] + name by {
      assert x[|x| - 1] == dir[|dir| - 1];
      assert |name| == 0 || name[0] != Sep;
      JoinRelative(x, name);
    }
    assert Join(a, dir + [Sep] + name) == base + (dir + [Sep] + name) by {
      assert (dir + [Sep] + name)[0] == dir[0];
      JoinRelative(a, dir + [Sep] + name);
    }
    calc {
      base + (dir + [Sep] + name);
      { Associative(base, dir + [Sep], name); }
      (base + (dir + [Sep])) + name;
      { Associative(base, dir, [Sep]); }
      x + [Sep] + name;
    }
  }

  /** A relative segment is appended to the base, with a separator added when the base lacks one. */
  lemma JoinRelative(a: string, b: string)
    requires |b| == 0 || b[0] != Sep
    ensures Join(a, b) == (if |a| > 0 && a[|a| - 1] != Sep then a + [Sep] else a) + b
  {
  }

  lemma Associative(a: string, b: string, c: string)
    ensures a + (b + c) == (a + b) + c
  {
  }
}
