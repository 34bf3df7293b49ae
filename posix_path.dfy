// The POSIX flavour of Python's os.path functions that the metadata worker
// uses to build the name of a relocated file: join, basename and splitext.

module PosixPath {

  /** Python's `s.rfind(c)`: the last index of `c` in `s`, or -1. */
  function RFind(s: string, c: char): (i: int)
    ensures -1 <= i < |s|
    ensures i >= 0 ==> s[i] == c
    ensures forall k :: i < k < |s| ==> s[k] != c
    decreases |s|
  {
    if s == [] then -1
    else if s[|s| - 1] == c then |s| - 1
    else RFind(s[..|s| - 1], c)
  }

  /** `os.path.join(a, b)`: an absolute `b` replaces `a`; otherwise a
      separator is inserted unless `a` is empty or already ends with one. */
  function Join(a: string, b: string): (r: string)
  {
    if |b| > 0 && b[0] == '/' then b
    else if a == [] || a[|a| - 1] == '/' then a + b
    else a + "/" + b
  }

  /** `os.path.basename(p)`: everything after the last separator. */
  function Basename(p: string): (r: string)
    ensures '/' !in r
    ensures exists k :: 0 <= k <= |p| && r == p[k..]
  {
    var k := RFind(p, '/') + 1;
    assert forall i :: 0 <= i < |p[k..]| ==> p[k..][i] == p[k + i];
    p[k..]
  }

  /** True when some character of `p[from..to]` is not a dot (the loop in
      genericpath._splitext that skips the leading dots of a file name). */
  predicate HasNonDot(p: string, from: nat, to: nat)
    requires from <= to <= |p|
  {
    exists k :: from <= k < to && p[k] != '.'
  }

  /** `os.path.splitext(p)` on POSIX: the extension starts at the last dot,
      provided that dot comes after the last separator and the file name
      before it is not made of dots only. */
  function SplitExt(p: string): (r: (string, string))
    ensures r.0 + r.1 == p
    ensures r.1 == [] || (r.1[0] == '.' && '.' !in r.1[1..] && '/' !in r.1)
  {
    var sep := RFind(p, '/');
    var dot := RFind(p, '.');
    if dot > sep && HasNonDot(p, sep + 1, dot) then
      assert forall k :: 0 <= k < |p[dot..]| ==> p[dot..][k] == p[dot + k];
      (p[..dot], p[dot..])
    else
      (p, [])
  }

  /** `splitext(p)[0]` */
  function Stem(p: string): string {
    SplitExt(p).0
  }

  /** `splitext(p)[1]` */
  function Ext(p: string): string {
    SplitExt(p).1
  }

  /** A name ending in a dotted suffix of non-dot, non-separator characters,
      after a non-dot character, splits at that suffix. */
  lemma {:induction false} SplitExtOfSuffix(name: string, ext: string)
    requires '/' !in name && '/' !in ext
    requires |name| > 0 && name[|name| - 1] != '.'
    requires |ext| > 0 && ext[0] == '.' && '.' !in ext[1..]
    ensures SplitExt(name + ext) == (name, ext)
  {
    var p := name + ext;
    forall k | |name| < k < |p| ensures p[k] != '.' && p[k] != '/' {
      assert p[k] == ext[1..][k - |name| - 1];
    }
    assert p[|name|] == '.';
    assert RFind(p, '.') == |name| by {
      RFindLast(p, '.', |name|);
    }
    assert RFind(p, '/') == -1 by {
      forall k | 0 <= k < |p| ensures p[k] != '/' {
        if k < |name| { assert p[k] == name[k]; }
      }
      RFindNone(p, '/');
    }
    assert p[|name| - 1] != '.';
    assert HasNonDot(p, 0, |name|);
  }

  lemma {:induction false} RFindLast(s: string, c: char, i: nat)
    requires i < |s| && s[i] == c
    requires forall k :: i < k < |s| ==> s[k] != c
    ensures RFind(s, c) == i
    decreases |s|
  {
    if i < |s| - 1 {
      RFindLast(s[..|s| - 1], c, i);
    }
  }

  lemma {:induction false} RFindNone(s: string, c: char)
    requires forall k :: 0 <= k < |s| ==> s[k] != c
    ensures RFind(s, c) == -1
    decreases |s|
  {
    if s != [] {
      RFindNone(s[..|s| - 1], c);
    }
  }
}
