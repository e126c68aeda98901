/** The parts of Python's posixpath that the utilities call: split, dirname,
    basename, join and splitext, on '/'-separated path strings. */
module PosixPath {

  /** Index of the last occurrence of c in s, or -1 when there is none. */
  function RFind(s: string, c: char): (i: int)
    ensures -1 <= i < |s|
    ensures i >= 0 ==> s[i] == c
    ensures forall j :: i < j < |s| ==> s[j] != c
  {
    if s == [] then -1
    else if s[|s| - 1] == c then |s| - 1
    else RFind(s[..|s| - 1], c)
  }

  /** RFind finds the last occurrence of c. */
  lemma {:induction false} RFindAt(s: string, c: char, i: int)
    requires -1 <= i < |s|
    requires i >= 0 ==> s[i] == c
    requires forall j :: i < j < |s| ==> s[j] != c
    ensures RFind(s, c) == i
  {
    if s != [] && s[|s| - 1] != c {
      RFindAt(s[..|s| - 1], c, i);
    }
  }

  /** s without its trailing run of c. */
  function RStrip(s: string, c: char): (r: string)
    ensures |r| <= |s| && r == s[..|r|]
    ensures r == [] || r[|r| - 1] != c
    ensures forall j :: |r| <= j < |s| ==> s[j] == c
  {
    if s != [] && s[|s| - 1] == c then RStrip(s[..|s| - 1], c) else s
  }

  predicate AllSlashes(s: string)
  {
    forall j :: 0 <= j < |s| ==> s[j] == '/'
  }

  /** posixpath.split: the part up to the last '/' (trailing slashes removed
      unless it is all slashes) and the part after it. */
  function Split(p: string): (r: (string, string))
    ensures r.1 == p[RFind(p, '/') + 1..]
    ensures '/' !in r.1
  {
    var i := RFind(p, '/') + 1;
    var head := p[..i];
    assert forall c :: c in p[i..] ==> c != '/';
    (if head != [] && !AllSlashes(head) then RStrip(head, '/') else head, p[i..])
  }

  function Dirname(p: string): string
  {
    Split(p).0
  }

  /** A path without a separator has an empty dirname. */
  lemma DirnameOfName(p: string)
    requires '/' !in p
    ensures Dirname(p) == []
  {
    forall j | 0 <= j < |p| ensures p[j] != '/' {
      assert p[j] in p;
    }
    assert RFind(p, '/') == -1;
    assert p[..0] == [];
  }

  function Basename(p: string): (b: string)
    ensures '/' !in b
    ensures |b| <= |p| && b == p[|p| - |b|..]
  {
    Split(p).1
  }

  /** posixpath.join of two components. */
  function Join(a: string, b: string): (r: string)
    ensures StartsWithSlash(b) ==> r == b
    ensures !StartsWithSlash(b) ==> |r| >= |a| + |b| && r[..|a|] == a && r[|r| - |b|..] == b
  {
    if StartsWithSlash(b) then b
    else if a == [] || a[|a| - 1] == '/' then a + b
    else a + "/" + b
  }

  predicate StartsWithSlash(s: string)
  {
    |s| > 0 && s[0] == '/'
  }

  /** A directory path with no trailing separator, unless it is made of
      separators only (the file system root). */
  predicate Normalized(root: string)
  {
    root != [] && (AllSlashes(root) || root[|root| - 1] != '/')
  }

  /** A single path segment: a non-empty name without a separator. */
  predicate IsName(n: string)
  {
    n != [] && '/' !in n
  }

  /** Joining a name onto a normalized directory and taking the dirname goes back
      to that directory; the basename is the name. */
  lemma DirnameJoin(root: string, name: string)
    requires Normalized(root) && IsName(name)
    ensures Dirname(Join(root, name)) == root
    ensures Basename(Join(root, name)) == name
  {
    var p := Join(root, name);
    var k := RFind(p, '/');
    if AllSlashes(root) {
      assert p == root + name;
      assert p[|root| - 1] == '/';
      forall j | |root| <= j < |p| ensures p[j] != '/' {
        assert p[j] == name[j - |root|];
      }
      assert k == |root| - 1;
      assert p[..|root|] == root;
      assert p[|root|..] == name;
    } else {
      assert p == root + "/" + name;
      assert p[|root|] == '/';
      forall j | |root| < j < |p| ensures p[j] != '/' {
        assert p[j] == name[j - |root| - 1];
      }
      assert k == |root|;
      var head := p[..k + 1];
      assert head == root + "/";
      assert head[|root| - 1] == root[|root| - 1] != '/';
      assert !AllSlashes(head);
      assert RStrip(head, '/') == RStrip(root, '/');
      assert RStrip(root, '/') == root;
      assert p[k + 1..] == name;
    }
  }

  /** posixpath.splitext: the extension is the part from the last '.' of the
      last segment, unless every character before that '.' in the segment is a
      '.' (so ".bashrc" has no extension). */
  function SplitExt(p: string): (r: (string, string))
    ensures r.0 + r.1 == p
    ensures r.1 == [] || r.1[0] == '.'
  {
    var sepIndex := RFind(p, '/');
    var dotIndex := RFind(p, '.');
    if dotIndex > sepIndex && HasNonDot(p, sepIndex + 1, dotIndex) then
      (p[..dotIndex], p[dotIndex..])
    else
      (p, [])
  }

  /** Some character of p[from..to] is not a '.'. */
  predicate HasNonDot(p: string, from: int, to: int)
    requires 0 <= from <= to <= |p|
  {
    exists j :: from <= j < to && p[j] != '.'
  }
}
