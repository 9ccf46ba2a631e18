/** The path sandbox: `secure_path` turns an untrusted client path into an
    absolute path under the working directory WORK_PATH, or aborts with 403.

    A path is modelled as its sequence of segments; `Render` gives the string
    Python's `os.path.abspath` produces for it.  Every step of `secure_path`
    (`lstrip('/')`, `os.path.join`, `os.path.abspath`, `startswith`) is a
    function here, so the admission test is the same string test the server
    performs.  That test is a raw string prefix: `SecurePathAdmits` says
    exactly which resolved paths it lets through, and `SiblingEscapes` shows
    one that is not under the working directory. */
module PathSandbox {
  import opened Outcomes

  /** Segments of an absolute path, "/a/b" being ["a", "b"] and "/" being []. */
  type Segs = seq<string>

  /** A segment that normalisation keeps: not empty, not "." and not "..". */
  predicate NormalSegment(s: string) {
    s != "" && s != "." && s != ".."
  }

  /** A segment of a normalised path: a normal segment without a separator. */
  predicate ValidSegment(s: string) {
    NormalSegment(s) && '/' !in s
  }

  predicate ValidSegs(p: Segs) {
    forall i :: 0 <= i < |p| ==> ValidSegment(p[i])
  }

  /** Python's `s.startswith(prefix)`: `s` is `prefix` followed by the rest
      of `s`. */
  predicate StartsWith(s: string, prefix: string)
    ensures StartsWith(s, prefix) <==> |prefix| <= |s| && s == prefix + s[|prefix|..]
  {
    |prefix| <= |s| && s[..|prefix|] == prefix
  }

  /** `x` is a proper string prefix of `y`. */
  predicate ProperPrefix(x: string, y: string) {
    |x| < |y| && y[..|x|] == x
  }

  /** Segment-wise containment: `b` is `a` or lies below it. */
  predicate IsAncestorOrSelf(a: Segs, b: Segs) {
    |a| <= |b| && b[..|a|] == a
  }

  /** `b` agrees with `a` up to `a`'s last segment, whose name is a proper
      string prefix of `b`'s segment at that depth ("/srv/data" and
      "/srv/data-old/x"): the shape of a sibling that a string-prefix test
      mistakes for a descendant. */
  predicate NameExtends(a: Segs, b: Segs) {
    0 < |a| <= |b| && a[..|a| - 1] == b[..|a| - 1] && ProperPrefix(a[|a| - 1], b[|a| - 1])
  }

  /** A string of `n` separators. */
  function Slashes(n: nat): (s: string)
    ensures |s| == n && forall i :: 0 <= i < n ==> s[i] == '/'
  {
    seq(n, _ => '/')
  }

  /** `s.lstrip('/')`: drops every leading separator and nothing else. */
  function LStripSlash(s: string): (r: string)
    ensures r == "" || r[0] != '/'
    ensures |r| <= |s|
  {
    if s != "" && s[0] == '/' then LStripSlash(s[1..]) else s
  }

  /** What `lstrip('/')` removes is separators only: the argument is some
      separators followed by the result. */
  lemma {:induction false} LStripSlashShape(s: string)
    ensures s == Slashes(|s| - |LStripSlash(s)|) + LStripSlash(s)
    decreases |s|
  {
    if s != "" && s[0] == '/' {
      LStripSlashShape(s[1..]);
      var n := |s| - |LStripSlash(s)|;
      assert Slashes(n) == "/" + Slashes(n - 1);
      assert s == "/" + s[1..];
    }
  }

  /** `os.path.join(a, b)` (POSIX): an absolute `b` replaces `a`; otherwise
      one separator is put between them unless `a` is empty or already ends
      with one. */
  function Join(a: string, b: string): (r: string)
    ensures (b == "" || b[0] != '/') ==> StartsWith(r, a) && |b| <= |r| && r[|r| - |b|..] == b
    ensures b != "" && b[0] == '/' ==> r == b
  {
    if b != "" && b[0] == '/' then b
    else if a == "" || a[|a| - 1] == '/' then a + b
    else a + "/" + b
  }

  /** Python's `s.split('/')`: at least one piece, none holding a separator. */
  function Split(s: string): (parts: seq<string>)
    ensures |parts| >= 1
  {
    if s == "" then [""]
    else
      var rest := Split(s[1..]);
      if s[0] == '/' then [""] + rest
      else [[s[0]] + rest[0]] + rest[1..]
  }

  /** No piece of a split holds a separator. */
  lemma {:induction false} SplitHasNoSeparator(s: string)
    ensures forall i :: 0 <= i < |Split(s)| ==> '/' !in Split(s)[i]
    decreases |s|
  {
    if s != "" {
      var rest := Split(s[1..]);
      SplitHasNoSeparator(s[1..]);
      if s[0] != '/' {
        var parts := Split(s);
        assert parts[0] == [s[0]] + rest[0];
        forall i | 0 < i < |parts|
          ensures '/' !in parts[i]
        {
          assert parts[i] == rest[i];
        }
      }
    }
  }

  /** `'/'.join(parts)`, the inverse of `Split`. */
  function Glue(parts: seq<string>): string
    requires |parts| >= 1
  {
    if |parts| == 1 then parts[0] else parts[0] + "/" + Glue(parts[1..])
  }

  /** The component loop of `posixpath.normpath` for an absolute path: empty
      and "." components are skipped, ".." drops the last kept segment (and
      is ignored at "/"), every other component is kept. */
  function Normalize(acc: Segs, comps: seq<string>): (r: Segs)
    ensures (forall i :: 0 <= i < |acc| ==> NormalSegment(acc[i])) ==>
              forall i :: 0 <= i < |r| ==> NormalSegment(r[i])
    ensures ValidSegs(acc) && (forall i :: 0 <= i < |comps| ==> '/' !in comps[i]) ==> ValidSegs(r)
    ensures |r| <= |acc| + |comps|
    decreases |comps|
  {
    if comps == [] then acc
    else
      var c := comps[0];
      if c == "" || c == "." then Normalize(acc, comps[1..])
      else if c == ".." then Normalize(if acc == [] then [] else acc[..|acc| - 1], comps[1..])
      else Normalize(acc + [c], comps[1..])
  }

  /** "/" followed by each segment and a separator before every segment but
      the first: "/a/b" for ["a", "b"], "" for []. */
  function Slashed(p: Segs): string {
    if p == [] then "" else "/" + p[0] + Slashed(p[1..])
  }

  /** The absolute path string of a segment path: `'/' + '/'.join(p)`. */
  function Render(p: Segs): (s: string)
    ensures |s| >= 1 && s[0] == '/'
  {
    if p == [] then "/" else Slashed(p)
  }

  /** The segments of `os.path.abspath(p)` for an absolute path `p`. */
  function NormalizeAbs(p: string): (r: Segs)
    ensures ValidSegs(r)
  {
    SplitHasNoSeparator(p);
    Normalize([], Split(p))
  }

  /** A path beginning with exactly one separator; `os.path.abspath` keeps a
      prefix of exactly two separators, a case `secure_path` never meets
      (`JoinedPathSingleRooted`). */
  predicate SingleRooted(p: string) {
    |p| >= 1 && p[0] == '/' && (|p| == 1 || p[1] != '/')
  }

  /** The path `secure_path` hands to `abspath`. */
  function Joined(root: Segs, user: string): string {
    Join(Render(root), LStripSlash(user))
  }

  /** The segments of `os.path.abspath(os.path.join(WORK_PATH, user.lstrip('/')))`. */
  function Resolve(root: Segs, user: string): (r: Segs)
    ensures ValidSegs(r)
  {
    NormalizeAbs(Joined(root, user))
  }

  /** `secure_path(user)` with WORK_PATH = Render(root): the resolved path when
      its string starts with WORK_PATH's string, 403 otherwise. */
  function SecurePath(root: Segs, user: string): (r: Result<Segs>)
    ensures r.Ok? ==> ValidSegs(r.value) && StartsWith(Render(r.value), Render(root))
    ensures r.Ok? ==> r.value == Resolve(root, user)
    ensures r.Err? ==> r.error == Forbidden && !StartsWith(Render(Resolve(root, user)), Render(root))
  {
    var segs := Resolve(root, user);
    if StartsWith(Render(segs), Render(root)) then Ok(segs) else Err(Forbidden)
  }

  // ---------------------------------------------------------------------
  // Splitting and joining

  /** The rendering is the string `os.path.abspath` prints for the segments:
      "/" followed by `'/'.join(p)`. */
  lemma RenderGlue(p: Segs)
    requires p != []
    ensures Render(p) == "/" + Glue(p)
  {
    SlashedGlue(p);
  }

  lemma {:induction false} SlashedGlue(p: Segs)
    requires p != []
    ensures Slashed(p) == "/" + Glue(p)
    decreases |p|
  {
    if |p| == 1 {
      assert Slashed(p[1..]) == "";
    } else {
      SlashedGlue(p[1..]);
    }
  }

  /** `Split` is Python's `str.split('/')`: `'/'.join(s.split('/')) == s`. */
  lemma {:induction false} SplitGlue(s: string)
    ensures Glue(Split(s)) == s
    decreases |s|
  {
    if s != "" {
      var t := s[1..];
      SplitGlue(t);
      if s[0] == '/' {
        GlueEmptyFirst(Split(t));
      } else {
        GlueExtendFirst([s[0]], Split(t));
      }
      assert s == [s[0]] + t;
    }
  }

  lemma GlueEmptyFirst(parts: seq<string>)
    requires |parts| >= 1
    ensures Glue([""] + parts) == "/" + Glue(parts)
  {
    assert ([""] + parts)[1..] == parts;
  }

  lemma {:induction false} GlueExtendFirst(x: string, parts: seq<string>)
    requires |parts| >= 1
    ensures Glue([x + parts[0]] + parts[1..]) == x + Glue(parts)
  {
    var q := [x + parts[0]] + parts[1..];
    if |parts| > 1 {
      assert q[1..] == parts[1..];
    }
  }

  /** Splitting at a separator splits each side separately. */
  lemma {:induction false} SplitAppend(a: string, b: string)
    ensures Split(a + "/" + b) == Split(a) + Split(b)
    decreases |a|
  {
    var s := a + "/" + b;
    if a == "" {
      assert s[0] == '/' && s[1..] == b;
    } else {
      assert s[0] == a[0] && s[1..] == a[1..] + "/" + b;
      SplitAppend(a[1..], b);
      PiecesAppend(a[0], Split(a[1..]), Split(b));
    }
  }

  /** The list step behind `SplitAppend`: adding a character in front of the
      pieces commutes with appending more pieces. */
  lemma PiecesAppend(c: char, x: seq<string>, y: seq<string>)
    requires |x| >= 1
    ensures (if c == '/' then [""] + (x + y) else [[c] + (x + y)[0]] + (x + y)[1..]) ==
            (if c == '/' then [""] + x else [[c] + x[0]] + x[1..]) + y
  {
    assert (x + y)[0] == x[0] && (x + y)[1..] == x[1..] + y;
    if c == '/' {
      assert [""] + (x + y) == ([""] + x) + y;
    } else {
      var h := [c] + x[0];
      assert [h] + (x[1..] + y) == ([h] + x[1..]) + y;
    }
  }

  /** A separator-free text in front of `s` joins `s`'s first piece. */
  lemma {:induction false} SplitPrefixed(x: string, s: string)
    requires '/' !in x
    ensures Split(x + s) == [x + Split(s)[0]] + Split(s)[1..]
    decreases |x|
  {
    if x == "" {
      assert x + s == s;
      assert x + Split(s)[0] == Split(s)[0];
      assert Split(s) == [Split(s)[0]] + Split(s)[1..];
    } else {
      var t := x + s;
      assert t[0] == x[0] && t[1..] == x[1..] + s;
      SplitPrefixed(x[1..], s);
      assert [t[0]] + (x[1..] + Split(s)[0]) == x + Split(s)[0];
    }
  }

  /** A rendered path splits back into an empty piece and its segments. */
  lemma {:induction false} SplitSlashed(p: Segs)
    requires ValidSegs(p)
    ensures Split(Slashed(p)) == [""] + p
    decreases |p|
  {
    if p != [] {
      var tail := Slashed(p[1..]);
      SplitSlashed(p[1..]);
      var s := Slashed(p);
      assert s == "/" + (p[0] + tail);
      assert s[0] == '/' && s[1..] == p[0] + tail;
      SplitPrefixed(p[0], tail);
      var y := Split(tail);
      assert y[0] == "" && y[1..] == p[1..];
      assert p[0] + y[0] == p[0];
      assert p == [p[0]] + p[1..];
    }
  }

  /** Slashed(p) of a non-empty valid path ends with a segment character. */
  lemma {:induction false} SlashedEnd(p: Segs)
    requires ValidSegs(p) && p != []
    ensures |Slashed(p)| >= 2 && Slashed(p)[|Slashed(p)| - 1] != '/'
    decreases |p|
  {
    if |p| > 1 {
      SlashedEnd(p[1..]);
    } else {
      assert Slashed(p) == "/" + p[0];
      assert p[0][|p[0]| - 1] in p[0];
    }
  }

  // ---------------------------------------------------------------------
  // Normalisation

  /** Valid segments pass through the normalisation loop unchanged. */
  lemma {:induction false} NormalizeKeeps(acc: Segs, p: Segs, rest: seq<string>)
    requires ValidSegs(p)
    ensures Normalize(acc, p + rest) == Normalize(acc + p, rest)
    decreases |p|
  {
    if p == [] {
      assert p + rest == rest;
      assert acc + p == acc;
    } else {
      var comps := p + rest;
      assert comps[0] == p[0] && comps[1..] == p[1..] + rest;
      assert ValidSegment(p[0]);
      NormalizeKeeps(acc + [p[0]], p[1..], rest);
      assert acc + [p[0]] + p[1..] == acc + p;
    }
  }

  /** Without a ".." component, normalisation only appends segments. */
  lemma {:induction false} NormalizeDescends(acc: Segs, comps: seq<string>)
    requires ".." !in comps
    ensures IsAncestorOrSelf(acc, Normalize(acc, comps))
    decreases |comps|
  {
    if comps != [] {
      var c := comps[0];
      assert comps == [c] + comps[1..];
      if c == "" || c == "." {
        NormalizeDescends(acc, comps[1..]);
      } else {
        NormalizeDescends(acc + [c], comps[1..]);
        var r := Normalize(acc, comps);
        assert r[..|acc| + 1] == acc + [c];
        assert r[..|acc|] == (r[..|acc| + 1])[..|acc|];
      }
    }
  }

  /** The string `secure_path` joins: WORK_PATH, one separator, then the
      client path with its leading separators stripped. */
  lemma JoinedShape(root: Segs, user: string)
    requires ValidSegs(root)
    ensures Joined(root, user) == Slashed(root) + "/" + LStripSlash(user)
  {
    JoinRelative(root, LStripSlash(user));
  }

  lemma JoinRelative(root: Segs, s: string)
    requires ValidSegs(root) && (s == "" || s[0] != '/')
    ensures Join(Render(root), s) == Slashed(root) + "/" + s
  {
    if root == [] {
      JoinOnto("/", s);
    } else {
      SlashedEnd(root);
      JoinOnto(Slashed(root), s);
    }
  }

  /** Joining a relative `s` onto a non-empty `a`: one separator between
      them unless `a` already ends with one. */
  lemma JoinOnto(a: string, s: string)
    requires a != "" && (s == "" || s[0] != '/')
    ensures Join(a, s) == if a[|a| - 1] == '/' then a + s else a + "/" + s
  {
  }

  /** The joined path always starts with exactly one separator. */
  lemma JoinedPathSingleRooted(root: Segs, user: string)
    requires ValidSegs(root)
    ensures SingleRooted(Joined(root, user))
  {
    JoinedShape(root, user);
    SlashedThenRelative(root, LStripSlash(user));
  }

  lemma SlashedThenRelative(root: Segs, s: string)
    requires ValidSegs(root) && (s == "" || s[0] != '/')
    ensures SingleRooted(Slashed(root) + "/" + s)
  {
    var j := Slashed(root) + "/" + s;
    if root == [] {
      assert j == "/" + s;
    } else {
      var a := Slashed(root);
      assert a == "/" + root[0] + Slashed(root[1..]);
      assert j[1] == a[1] == root[0][0];
      assert root[0][0] in root[0];
    }
  }

  /** `secure_path` starts normalising at WORK_PATH's own segments with the
      client's components, leading separators stripped. */
  lemma ResolveFromRoot(root: Segs, user: string)
    requires ValidSegs(root)
    ensures Resolve(root, user) == Normalize(root, Split(LStripSlash(user)))
  {
    var rest := Split(LStripSlash(user));
    JoinedSplit(root, user);
    var comps := [""] + (root + rest);
    assert comps[0] == "" && comps[1..] == root + rest;
    assert Normalize([], comps) == Normalize([], root + rest);
    NormalizeKeeps([], root, rest);
    assert [] + root == root;
  }

  /** The pieces of the joined path: an empty one, WORK_PATH's segments, then
      the pieces of the stripped client path. */
  lemma JoinedSplit(root: Segs, user: string)
    requires ValidSegs(root)
    ensures Split(Joined(root, user)) == [""] + (root + Split(LStripSlash(user)))
  {
    JoinedShape(root, user);
    SplitAfterRoot(root, LStripSlash(user));
  }

  lemma {:induction false} SplitAfterRoot(root: Segs, s: string)
    requires ValidSegs(root)
    ensures Split(Slashed(root) + "/" + s) == [""] + (root + Split(s))
  {
    var a := Slashed(root);
    SplitAppend(a, s);
    SplitSlashed(root);
    assert Split(a) + Split(s) == [""] + (root + Split(s));
  }

  /** `os.path.abspath` is idempotent on its own output: a rendered valid
      path normalises back to the same segments. */
  lemma NormalizeAbsIdempotent(p: Segs)
    requires ValidSegs(p)
    ensures NormalizeAbs(Render(p)) == p
  {
    if p == [] {
      SplitAppend("", "");
      assert "" + "/" + "" == Render(p);
      var comps := Split(Render(p));
      assert comps == ["", ""];
      assert Normalize([], comps) == Normalize([], comps[1..]);
      assert comps[1..][1..] == [];
    } else {
      SplitSlashed(p);
      NormalizeKeeps([], p, []);
      assert p + [] == p;
      assert [] + p == p;
    }
  }

  // ---------------------------------------------------------------------
  // What the string-prefix test admits

  lemma NotPrefixAt(s: string, p: string, k: nat)
    requires k < |p| && (k >= |s| || s[k] != p[k])
    ensures !StartsWith(s, p)
  {
    if |p| <= |s| {
      assert s[..|p|][k] != p[k];
    }
  }

  /** The string-prefix order of rendered paths, segment by segment: one
      rendering is a prefix of another exactly when the first path is an
      ancestor-or-self of the second, or its last segment's name is a proper
      prefix of the segment in the same place. */
  lemma {:induction false} SlashedPrefix(a: Segs, b: Segs)
    requires ValidSegs(a) && ValidSegs(b)
    ensures StartsWith(Slashed(b), Slashed(a)) <==> IsAncestorOrSelf(a, b) || NameExtends(a, b)
    decreases |a|
  {
    if a == [] {
      assert b[..0] == a;
    } else if b == [] {
      assert |Slashed(a)| >= 1;
    } else if a[0] == b[0] {
      SlashedPrefix(a[1..], b[1..]);
      StartsWithSameHead(a, b);
      AncestorSameHead(a, b);
      NameExtendsSameHead(a, b);
    } else if ProperPrefix(a[0], b[0]) {
      SlashedPrefixLongerHead(a, b);
    } else {
      SlashedPrefixOtherHead(a, b);
    }
  }

  lemma StartsWithSameHead(a: Segs, b: Segs)
    requires a != [] && b != [] && a[0] == b[0]
    ensures StartsWith(Slashed(b), Slashed(a)) <==> StartsWith(Slashed(b[1..]), Slashed(a[1..]))
  {
    var c := "/" + a[0];
    var sa, sb := Slashed(a[1..]), Slashed(b[1..]);
    assert Slashed(a) == c + sa && Slashed(b) == c + sb;
    if StartsWith(sb, sa) {
      assert (c + sb)[..|c + sa|] == c + sb[..|sa|];
    }
    if StartsWith(c + sb, c + sa) {
      assert (c + sb)[..|c + sa|] == c + sb[..|sa|];
      assert sb[..|sa|] == (c + sb)[..|c + sa|][|c|..];
    }
  }

  lemma AncestorSameHead(a: Segs, b: Segs)
    requires a != [] && b != [] && a[0] == b[0]
    ensures IsAncestorOrSelf(a, b) <==> IsAncestorOrSelf(a[1..], b[1..])
  {
    assert a == [a[0]] + a[1..];
    if |a| <= |b| {
      assert b[..|a|] == [b[0]] + b[1..][..|a| - 1];
    }
  }

  lemma NameExtendsSameHead(a: Segs, b: Segs)
    requires a != [] && b != [] && a[0] == b[0]
    ensures NameExtends(a, b) <==> NameExtends(a[1..], b[1..])
  {
    var a', b' := a[1..], b[1..];
    if |a| == 1 {
      assert !NameExtends(a, b);
    } else if |a| <= |b| {
      assert a[..|a| - 1] == [a[0]] + a'[..|a'| - 1];
      assert b[..|a| - 1] == [b[0]] + b'[..|a'| - 1];
      assert a[|a| - 1] == a'[|a'| - 1] && b[|a| - 1] == b'[|a'| - 1];
      if a[..|a| - 1] == b[..|a| - 1] {
        assert a'[..|a'| - 1] == a[..|a| - 1][1..] && b'[..|a'| - 1] == b[..|a| - 1][1..];
      }
    }
  }

  /** First segments differ, and `a`'s is a proper prefix of `b`'s: the
      strings agree exactly when `a` has no further segment. */
  lemma SlashedPrefixLongerHead(a: Segs, b: Segs)
    requires ValidSegs(a) && ValidSegs(b) && a != [] && b != []
    requires ProperPrefix(a[0], b[0])
    ensures StartsWith(Slashed(b), Slashed(a)) <==> IsAncestorOrSelf(a, b) || NameExtends(a, b)
  {
    var x, y := a[0], b[0];
    var sa := Slashed(a[1..]);
    assert Slashed(a) == "/" + x + sa;
    assert Slashed(b) == "/" + y + Slashed(b[1..]);
    assert !IsAncestorOrSelf(a, b) by {
      if |a| <= |b| { assert b[..|a|][0] == y; }
    }
    if |a| == 1 {
      assert Slashed(a) == "/" + x;
      assert Slashed(b)[..|Slashed(a)|] == "/" + y[..|x|];
      assert a[..0] == b[..0];
      assert NameExtends(a, b);
    } else {
      assert sa == "/" + a[1] + Slashed(a[2..]);
      assert Slashed(a)[1 + |x|] == '/';
      assert y[|x|] in y;
      if 1 + |x| < |Slashed(b)| {
        assert Slashed(b)[1 + |x|] == y[|x|];
      }
      NotPrefixAt(Slashed(b), Slashed(a), 1 + |x|);
      assert !NameExtends(a, b) by {
        if |a| <= |b| { assert a[..|a| - 1][0] == x && b[..|a| - 1][0] == y; }
      }
    }
  }

  /** First segments differ and `a`'s is not a prefix of `b`'s: the strings
      part at the first differing character. */
  lemma SlashedPrefixOtherHead(a: Segs, b: Segs)
    requires ValidSegs(a) && ValidSegs(b) && a != [] && b != []
    requires a[0] != b[0] && !ProperPrefix(a[0], b[0])
    ensures !StartsWith(Slashed(b), Slashed(a))
    ensures !IsAncestorOrSelf(a, b) && !NameExtends(a, b)
  {
    var x, y := a[0], b[0];
    assert Slashed(a) == "/" + x + Slashed(a[1..]);
    assert Slashed(b) == "/" + y + Slashed(b[1..]);
    assert !IsAncestorOrSelf(a, b) by {
      if |a| <= |b| { assert b[..|a|][0] == y; }
    }
    assert !NameExtends(a, b) by {
      if 1 < |a| <= |b| { assert a[..|a| - 1][0] == x && b[..|a| - 1][0] == y; }
    }
    if |x| <= |y| {
      assert y[..|x|] != x;
      var j :| 0 <= j < |x| && x[j] != y[j];
      assert Slashed(a)[1 + j] == x[j];
      if 1 + j < |Slashed(b)| {
        assert Slashed(b)[1 + j] == y[j];
      }
      NotPrefixAt(Slashed(b), Slashed(a), 1 + j);
    } else {
      assert Slashed(a)[1 + |y|] == x[|y|];
      assert x[|y|] in x;
      if b[1..] != [] {
        assert Slashed(b[1..]) == "/" + b[1] + Slashed(b[2..]);
        assert Slashed(b)[1 + |y|] == '/';
      }
      NotPrefixAt(Slashed(b), Slashed(a), 1 + |y|);
    }
  }

  /** `Render(b).startswith(Render(a))`, stated on segments. */
  lemma RenderPrefix(a: Segs, b: Segs)
    requires ValidSegs(a) && ValidSegs(b)
    ensures StartsWith(Render(b), Render(a)) <==> IsAncestorOrSelf(a, b) || NameExtends(a, b)
  {
    if a == [] {
      assert b[..0] == a;
    } else if b == [] {
      assert Render(a) == "/" + a[0] + Slashed(a[1..]);
      assert a[0] != "";
    } else {
      SlashedPrefix(a, b);
    }
  }

  /** The exact admission rule of `secure_path`: a request is admitted when
      its resolved path is WORK_PATH or lies below it, and ALSO when it only
      extends WORK_PATH's last name (a sibling such as WORK_PATH + "-old"). */
  lemma SecurePathAdmits(root: Segs, user: string)
    requires ValidSegs(root)
    ensures SecurePath(root, user).Ok? <==>
              IsAncestorOrSelf(root, Resolve(root, user)) || NameExtends(root, Resolve(root, user))
  {
    RenderPrefix(root, Resolve(root, user));
  }

  /** Leading separators do not matter: an absolute-looking client path
      resolves as its root-relative form. */
  lemma {:induction false} StripLeadingSlashes(root: Segs, n: nat, user: string)
    requires ValidSegs(root)
    ensures SecurePath(root, Slashes(n) + user) == SecurePath(root, user)
    decreases n
  {
    if n > 0 {
      var s := Slashes(n) + user;
      assert s[0] == '/';
      assert s[1..] == Slashes(n - 1) + user;
      StripLeadingSlashes(root, n - 1, user);
      assert LStripSlash(s) == LStripSlash(Slashes(n - 1) + user);
    } else {
      assert Slashes(n) + user == user;
    }
  }

  /** A client path with no ".." component is always admitted and resolves
      inside WORK_PATH segment-wise. */
  lemma NoParentRefStaysInside(root: Segs, user: string)
    requires ValidSegs(root)
    requires ".." !in Split(LStripSlash(user))
    ensures SecurePath(root, user).Ok?
    ensures IsAncestorOrSelf(root, SecurePath(root, user).value)
  {
    ResolveFromRoot(root, user);
    NormalizeDescends(root, Split(LStripSlash(user)));
    SecurePathAdmits(root, user);
  }

  /** A relative path written segment by segment splits into exactly those
      segments and has no leading separator to strip. */
  lemma RelativeSplit(p: Segs)
    requires ValidSegs(p) && p != []
    ensures LStripSlash(Slashed(p)[1..]) == Slashed(p)[1..]
    ensures Split(Slashed(p)[1..]) == p
  {
    var s := Slashed(p);
    var u := s[1..];
    assert s == "/" + p[0] + Slashed(p[1..]);
    assert u[0] == p[0][0] && p[0][0] in p[0];
    SplitSlashed(p);
    SplitAppend("", u);
    assert "" + "/" + u == s;
    assert Split(s) == [""] + Split(u);
    assert Split(u) == Split(s)[1..];
  }

  /** A relative path written segment by segment ("a/b.txt") resolves to
      exactly those segments under WORK_PATH. */
  lemma PlainPathResolves(root: Segs, p: Segs)
    requires ValidSegs(root) && ValidSegs(p) && p != []
    ensures SecurePath(root, Slashed(p)[1..]) == Ok(root + p)
  {
    var u := Slashed(p)[1..];
    RelativeSplit(p);
    ResolveFromRoot(root, u);
    NormalizeKeeps(root, p, []);
    assert p + [] == p;
    assert (root + p)[..|root|] == root;
    SecurePathAdmits(root, u);
  }

  /** A text without separators splits into itself. */
  lemma SplitSegment(x: string)
    requires '/' !in x
    ensures Split(x) == [x]
  {
    SplitPrefixed(x, "");
    assert x + "" == x;
  }

  /** The flaw of the string-prefix test: whatever WORK_PATH is, a client
      path that climbs one level and descends into a sibling whose name
      extends WORK_PATH's last name is admitted, although the resolved path
      is not below WORK_PATH. */
  lemma SiblingEscapes(root: Segs, sibling: string, name: string)
    requires ValidSegs(root) && root != []
    requires ValidSegment(sibling) && ValidSegment(name)
    requires ProperPrefix(root[|root| - 1], sibling)
    ensures SecurePath(root, ".." + "/" + sibling + "/" + name) == Ok(root[..|root| - 1] + [sibling, name])
    ensures !IsAncestorOrSelf(root, root[..|root| - 1] + [sibling, name])
  {
    var user := ".." + "/" + sibling + "/" + name;
    var r := root[..|root| - 1] + [sibling, name];
    ResolveSibling(root, user, sibling, name);
    assert r[..|root| - 1] == root[..|root| - 1] && r[|root| - 1] == sibling;
    assert NameExtends(root, r);
    SecurePathAdmits(root, user);
    assert !IsAncestorOrSelf(root, r) by {
      assert r[..|root|][|root| - 1] == sibling;
      assert root[|root| - 1] != sibling;
    }
  }

  lemma ResolveSibling(root: Segs, user: string, sibling: string, name: string)
    requires ValidSegs(root) && root != []
    requires ValidSegment(sibling) && ValidSegment(name)
    requires user == ".." + "/" + sibling + "/" + name
    ensures Resolve(root, user) == root[..|root| - 1] + [sibling, name]
  {
    var up := "..";
    SplitThree(up, sibling, name);
    assert LStripSlash(user) == user by { assert user[0] == '.'; }
    ResolveFromRoot(root, user);
    var parent := root[..|root| - 1];
    assert Normalize(root, [up, sibling, name]) == Normalize(parent, [sibling, name]);
    NormalizeKeeps(parent, [sibling, name], []);
    assert [sibling, name] + [] == [sibling, name];
  }

  /** Three separator-free texts joined by separators split back into them. */
  lemma SplitThree(x: string, y: string, z: string)
    requires '/' !in x && '/' !in y && '/' !in z
    ensures Split(x + "/" + y + "/" + z) == [x, y, z]
  {
    var tail := y + "/" + z;
    assert x + "/" + y + "/" + z == x + "/" + tail;
    SplitAppend(x, tail);
    SplitAppend(y, z);
    SplitSegment(x);
    SplitSegment(y);
    SplitSegment(z);
  }

  /** The same flaw on one input: with WORK_PATH "/workspace", the client path
      "../workspace-evil/secret.txt" is admitted and resolves to
      "/workspace-evil/secret.txt". */
  lemma SiblingEscapeExample(root: Segs, user: string)
    requires root == ["workspace"] && user == "../workspace-evil/secret.txt"
    ensures SecurePath(root, user) == Ok(["workspace-evil", "secret.txt"])
    ensures !IsAncestorOrSelf(root, SecurePath(root, user).value)
  {
    var sibling, name := "workspace-evil", "secret.txt";
    assert user == ".." + "/" + sibling + "/" + name;
    assert ProperPrefix(root[0], sibling);
    SiblingEscapes(root, sibling, name);
    assert root[..0] + [sibling, name] == [sibling, name];
  }

  /** A client path that climbs two levels out of a one-level WORK_PATH into an
      unrelated directory is refused. */
  lemma TraversalRejected(w: string, dir: string, name: string)
    requires ValidSegment(w) && ValidSegment(dir) && ValidSegment(name)
    requires !StartsWith(dir, w)
    ensures SecurePath([w], ".." + "/" + ".." + "/" + dir + "/" + name) == Err(Forbidden)
  {
    var root := [w];
    var user := ".." + "/" + ".." + "/" + dir + "/" + name;
    var r := [dir, name];
    ResolveTraversal(w, user, dir, name);
    SecurePathAdmits(root, user);
    assert !IsAncestorOrSelf(root, r) && !NameExtends(root, r) by {
      assert r[..1][0] == dir;
      assert root[..0] == r[..0];
    }
  }

  lemma ResolveTraversal(w: string, user: string, dir: string, name: string)
    requires ValidSegment(w) && ValidSegment(dir) && ValidSegment(name)
    requires user == ".." + "/" + ".." + "/" + dir + "/" + name
    ensures Resolve([w], user) == [dir, name]
  {
    SplitTraversal(user, dir, name);
    ResolveFromRoot([w], user);
    NormalizeClimbs(w, dir, name);
  }

  lemma {:induction false} SplitTraversal(user: string, dir: string, name: string)
    requires ValidSegment(dir) && ValidSegment(name)
    requires user == ".." + "/" + ".." + "/" + dir + "/" + name
    ensures LStripSlash(user) == user
    ensures Split(user) == ["..", "..", dir, name]
  {
    var rest := dir + "/" + name;
    var mid := ".." + "/" + rest;
    assert user == ".." + "/" + mid;
    SplitAppend(dir, name);
    SplitSegment(dir);
    SplitSegment(name);
    SplitUp(rest);
    SplitUp(mid);
    assert user[0] == '.';
  }

  lemma SplitUp(x: string)
    ensures Split(".." + "/" + x) == [".."] + Split(x)
  {
    SplitAppend("..", x);
    SplitSegment("..");
  }

  /** Two ".." components climb out of a one-segment WORK_PATH and stop
      at "/". */
  lemma NormalizeClimbs(w: string, dir: string, name: string)
    requires ValidSegment(dir) && ValidSegment(name)
    ensures Normalize([w], ["..", "..", dir, name]) == [dir, name]
  {
    var comps := ["..", "..", dir, name];
    assert comps[1..] == ["..", dir, name];
    assert comps[1..][1..] == [dir, name];
    assert [w][..0] == [];
    assert Normalize([w], comps) == Normalize([], ["..", dir, name]);
    assert Normalize([], ["..", dir, name]) == Normalize([], [dir, name]);
    NormalizeKeeps([], [dir, name], []);
    assert [] + [dir, name] == [dir, name] && [dir, name] + [] == [dir, name];
  }

  /** "../../etc/passwd" under WORK_PATH "/workspace" is refused. */
  lemma TraversalExample(root: Segs, user: string)
    requires root == ["workspace"] && user == "../../etc/passwd"
    ensures SecurePath(root, user) == Err(Forbidden)
  {
    assert user == ".." + "/" + ".." + "/" + "etc" + "/" + "passwd";
    assert !StartsWith("etc", "workspace");
    TraversalRejected("workspace", "etc", "passwd");
  }

  /** A client path of one plain segment resolves to that segment below
      WORK_PATH. */
  lemma OneSegmentResolves(root: Segs, dir: string)
    requires ValidSegs(root) && ValidSegment(dir)
    ensures SecurePath(root, dir) == Ok(root + [dir])
  {
    PlainPathResolves(root, [dir]);
    SlashedOne(dir);
  }

  lemma SlashedOne(dir: string)
    ensures Slashed([dir])[1..] == dir
  {
    assert [dir][1..] == [];
    assert Slashed([dir]) == "/" + dir;
  }

  /** A client path of two plain segments resolves to those segments below
      WORK_PATH. */
  lemma TwoSegmentsResolve(root: Segs, dir: string, name: string)
    requires ValidSegs(root) && ValidSegment(dir) && ValidSegment(name)
    ensures SecurePath(root, dir + "/" + name) == Ok(root + [dir, name])
  {
    PlainPathResolves(root, [dir, name]);
    SlashedTwo(dir, name);
  }

  lemma SlashedTwo(dir: string, name: string)
    ensures Slashed([dir, name])[1..] == dir + "/" + name
  {
    assert [dir, name][1..] == [name] && [name][1..] == [];
    assert Slashed([name]) == "/" + name;
    assert Slashed([dir, name]) == "/" + dir + "/" + name;
  }
}
