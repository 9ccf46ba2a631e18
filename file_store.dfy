/** The disk the server works on, and the file-system calls its handlers make.

    The disk is a map from absolute paths (as segments) to what is stored
    there: a regular file with its text, or a directory.  Keys are absolute,
    not relative to WORK_PATH, because `secure_path` can admit paths beside
    WORK_PATH (see `PathSandbox.SiblingEscapes`). */
module FileStore {
  import opened Outcomes
  import opened PathSandbox

  datatype Node = File(content: string) | Dir

  type Tree = map<Segs, Node>

  predicate IsDir(t: Tree, p: Segs) {
    p in t && t[p].Dir?
  }

  predicate IsFile(t: Tree, p: Segs) {
    p in t && t[p].File?
  }

  /** `os.path.dirname` of a rendered path: the parent, or "/" for "/". */
  function DirName(p: Segs): (d: Segs)
    ensures IsAncestorOrSelf(d, p)
    ensures p != [] ==> |d| == |p| - 1
  {
    if p == [] then [] else p[..|p| - 1]
  }

  /** No name on `p` holds the NUL character.  Python refuses to hand a
      path holding NUL to the operating system: `open` and `mkdir` raise
      `ValueError`, and `os.path.exists` answers False. */
  predicate NulFree(p: Segs) {
    forall i :: 0 <= i < |p| ==> '\0' !in p[i]
  }

  /** The number of leading names of `d` that hold no NUL. */
  function NulFreeLength(d: Segs): (k: nat)
    ensures k <= |d| && NulFree(d[..k])
    ensures k < |d| ==> '\0' in d[k]
    ensures k == |d| <==> NulFree(d)
    decreases |d|
  {
    if d == [] || '\0' in d[0] then 0
    else
      var k := 1 + NulFreeLength(d[1..]);
      assert forall i :: 1 <= i < k ==> d[..k][i] == d[1..][..k - 1][i - 1];
      k
  }

  lemma DirNameOfChild(d: Segs, name: string)
    ensures DirName(d + [name]) == d
  {
    assert (d + [name])[..|d|] == d;
  }

  /** A directory tree: "/" is a directory, every path is normalised and
      free of NUL, and every other path sits in an existing directory. */
  ghost predicate WellFormed(t: Tree) {
    && IsDir(t, [])
    && (forall p :: p in t ==> ValidSegs(p) && NulFree(p))
    && (forall p :: p in t && p != [] ==> IsDir(t, p[..|p| - 1]))
  }

  /** In a tree every proper prefix of an existing path is a directory. */
  lemma {:induction false} AncestorsAreDirs(t: Tree, q: Segs, i: nat)
    requires WellFormed(t) && q in t && i < |q|
    ensures IsDir(t, q[..i])
    decreases |q|
  {
    var parent := q[..|q| - 1];
    assert IsDir(t, parent);
    if i < |q| - 1 {
      AncestorsAreDirs(t, parent, i);
      assert parent[..i] == q[..i];
    }
  }

  /** Every prefix of the parent of an existing directory is a directory, so
      `makedirs` on that parent has nothing to create. */
  lemma DirectoryNeedsNoDirs(t: Tree, p: Segs)
    requires WellFormed(t) && IsDir(t, p)
    ensures forall q :: q in Prefixes(DirName(p)) ==> IsDir(t, q)
  {
    forall q | q in Prefixes(DirName(p))
      ensures IsDir(t, q)
    {
      if p != [] {
        var i :| 0 <= i <= |DirName(p)| && q == DirName(p)[..i];
        AncestorsAreDirs(t, p, i);
        assert q == p[..i];
      }
    }
  }

  /** Nothing lies below a regular file. */
  lemma FileHasNoDescendants(t: Tree, p: Segs)
    requires WellFormed(t) && IsFile(t, p)
    ensures forall q :: q in t && q != p ==> !IsAncestorOrSelf(p, q)
  {
    forall q | q in t && q != p
      ensures !IsAncestorOrSelf(p, q)
    {
      if |p| < |q| {
        AncestorsAreDirs(t, q, |p|);
        assert q[..|p|] != p;
      } else if |p| == |q| {
        assert q[..|p|] == q;
      }
    }
  }

  // ---------------------------------------------------------------------
  // File-system calls

  /** Every prefix of `d`, from "/" to `d` itself. */
  function Prefixes(d: Segs): (ps: set<Segs>)
    ensures forall q :: q in ps ==> IsAncestorOrSelf(q, d)
    ensures forall i :: 0 <= i <= |d| ==> d[..i] in ps
    ensures d in ps
  {
    assert d[..|d|] == d;
    set i | 0 <= i <= |d| :: d[..i]
  }

  /** Some prefix of `d`, `d` itself included, is a regular file. */
  predicate FileOnPath(t: Tree, d: Segs) {
    exists i :: 0 <= i <= |d| && IsFile(t, d[..i])
  }

  /** What a file-system call leaves behind: the disk afterwards, and
      whether the call raised. */
  datatype Effect = Effect(disk: Tree, raised: bool)

  /** `os.makedirs(d, exist_ok=True)`.  Working down from the deepest
      existing ancestor, every missing directory on the way to `d` is
      created.  A regular file on that way makes it raise before it creates
      anything.  A name holding NUL makes it raise when it reaches that name,
      after creating the missing directories above it. */
  function MakeDirs(t: Tree, d: Segs): (r: Effect)
    requires WellFormed(t) && ValidSegs(d)
    ensures WellFormed(r.disk)
    ensures r.raised <==> FileOnPath(t, d[..NulFreeLength(d)]) || !NulFree(d)
    ensures FileOnPath(t, d[..NulFreeLength(d)]) ==> r.disk == t
    ensures !FileOnPath(t, d[..NulFreeLength(d)]) ==>
              && r.disk.Keys == t.Keys + Prefixes(d[..NulFreeLength(d)])
              && forall q :: q in Prefixes(d[..NulFreeLength(d)]) ==> r.disk[q] == Dir
    ensures forall q :: q in t ==> r.disk[q] == t[q]
  {
    var e := d[..NulFreeLength(d)];
    assert ValidSegs(e) by {
      assert forall i :: 0 <= i < |e| ==> e[i] == d[i];
    }
    if FileOnPath(t, e) then Effect(t, true)
    else
      var made := t + map q | q in Prefixes(e) && q !in t :: Dir;
      MakeDirsWellFormed(t, e, made);
      Effect(made, !NulFree(d))
  }

  lemma MakeDirsWellFormed(t: Tree, d: Segs, made: Tree)
    requires WellFormed(t) && ValidSegs(d) && NulFree(d) && !FileOnPath(t, d)
    requires made == t + map q | q in Prefixes(d) && q !in t :: Dir
    ensures WellFormed(made)
    ensures forall q :: q in Prefixes(d) ==> made[q] == Dir
  {
    forall q | q in Prefixes(d)
      ensures made[q] == Dir
    {
      var i :| 0 <= i <= |d| && q == d[..i];
      assert !IsFile(t, d[..i]);
    }
    forall q | q in made && q != []
      ensures IsDir(made, q[..|q| - 1])
    {
      if q in t {
        assert IsDir(t, q[..|q| - 1]);
      } else {
        var i :| 0 <= i <= |d| && q == d[..i];
        assert q[..|q| - 1] == d[..i - 1];
      }
    }
    forall q | q in made
      ensures ValidSegs(q) && NulFree(q)
    {
      if q !in t {
        var i :| 0 <= i <= |d| && q == d[..i];
        assert forall k :: 0 <= k < |q| ==> q[k] == d[k];
      }
    }
  }

  /** `open(p, 'w')` and writing `c`: the file at `p` is created or truncated
      and then holds `c`; it raises when a name on `p` holds NUL, when `p` is
      a directory, or when its parent is missing or is not a directory. */
  function OpenForWrite(t: Tree, p: Segs, c: string): (r: Result<Tree>)
    requires WellFormed(t) && ValidSegs(p)
    ensures r.Ok? <==> NulFree(p) && !IsDir(t, p) && IsDir(t, DirName(p))
    ensures r.Ok? ==> WellFormed(r.value) && r.value.Keys == t.Keys + {p} && r.value[p] == File(c)
    ensures r.Ok? ==> forall q :: q in t && q != p ==> r.value[q] == t[q]
  {
    if !NulFree(p) || IsDir(t, p) || !IsDir(t, DirName(p)) then Err(ServerError)
    else Ok(t[p := File(c)])
  }

  /** Outside the line through `p` (its ancestors and its descendants)
      nothing differs between `before` and `after`. */
  ghost predicate ChangedOnlyAlong(before: Tree, after: Tree, p: Segs) {
    forall q :: !IsAncestorOrSelf(q, p) && !IsAncestorOrSelf(p, q) ==>
      (q in before <==> q in after) && (q in before ==> before[q] == after[q])
  }

  /** Setting one path changes nothing off the line through it. */
  lemma SetChangesOnlyAlong(t: Tree, p: Segs, v: Node)
    ensures ChangedOnlyAlong(t, t[p := v], p)
  {
    assert IsAncestorOrSelf(p, p);
  }

  /** `makedirs` of the parent followed by `open(p, 'w')`, when neither
      raises: the ancestors of `p` are directories, `p` is an empty file, and
      every other path is as it was. */
  lemma CreateSucceeds(t: Tree, p: Segs)
    requires WellFormed(t) && ValidSegs(p) && NulFree(p)
    requires !FileOnPath(t, DirName(p)) && !IsDir(t, p)
    ensures !MakeDirs(t, DirName(p)).raised
    ensures OpenForWrite(MakeDirs(t, DirName(p)).disk, p, "").Ok?
    ensures var r := OpenForWrite(MakeDirs(t, DirName(p)).disk, p, "").value;
            && r.Keys == t.Keys + Prefixes(DirName(p)) + {p}
            && r[p] == File("")
            && (forall q :: q in Prefixes(DirName(p)) ==> r[q] == Dir)
            && (forall q :: q in t && q != p ==> r[q] == t[q])
            && ChangedOnlyAlong(t, r, p)
  {
    var d := DirName(p);
    assert p != [];
    ParentNulFree(p);
    ParentPrefixes(p);
    var made := MakeDirs(t, d).disk;
    assert d in made.Keys;
    assert IsDir(made, d);
    assert p !in Prefixes(d);
    assert !IsDir(made, p);
  }

  /** The parent of a path without NUL has none either, so `makedirs` of it
      works on the whole parent. */
  lemma ParentNulFree(p: Segs)
    requires NulFree(p)
    ensures NulFree(DirName(p))
    ensures DirName(p)[..NulFreeLength(DirName(p))] == DirName(p)
  {
    var d := DirName(p);
    assert forall i :: 0 <= i < |d| ==> d[i] == p[i];
    assert d[..|d|] == d;
  }

  /** `makedirs` of the parent of `p`, raising or not, adds only ancestors
      of `p`. */
  lemma MakeDirsChangesOnlyAlong(t: Tree, p: Segs)
    requires WellFormed(t) && ValidSegs(p) && p != []
    ensures ChangedOnlyAlong(t, MakeDirs(t, DirName(p)).disk, p)
    ensures forall q :: q in MakeDirs(t, DirName(p)).disk && q !in t ==> IsAncestorOrSelf(q, p) && q != p
  {
    var d := DirName(p);
    var e := d[..NulFreeLength(d)];
    forall q | q in Prefixes(e)
      ensures IsAncestorOrSelf(q, p) && q != p
    {
      assert p[..|q|] == e[..|q|];
    }
  }

  /** The prefixes of the parent of `p` are proper ancestors of `p`. */
  lemma ParentPrefixes(p: Segs)
    requires p != []
    ensures forall q :: q in Prefixes(DirName(p)) ==> IsAncestorOrSelf(q, p) && |q| < |p|
  {
    forall q | q in Prefixes(DirName(p))
      ensures IsAncestorOrSelf(q, p) && |q| < |p|
    {
      assert p[..|q|] == DirName(p)[..|q|];
    }
  }

  /** When `makedirs` of the parent succeeds on a directory `p`, it changes
      nothing, and `open(p, 'w')` then raises. */
  lemma CreateOnDirectoryFails(t: Tree, p: Segs)
    requires WellFormed(t) && ValidSegs(p) && IsDir(t, p)
    ensures MakeDirs(t, DirName(p)) == Effect(t, false)
    ensures OpenForWrite(t, p, "").Err?
  {
    DirectoryNeedsNoDirs(t, p);
    ParentNulFree(p);
    var d := DirName(p);
    assert forall i :: 0 <= i <= |d| ==> IsDir(t, d[..i]);
    assert MakeDirs(t, d).disk == t;
  }

  /** A NUL in the target's name or in a directory name above it: `makedirs`
      of the parent creates the missing directories above the first such
      name, and then `makedirs` or `open(p, 'w')` raises.  Nothing else
      changes and `p` itself is never created. */
  lemma CreateWithNulFails(t: Tree, p: Segs)
    requires WellFormed(t) && ValidSegs(p) && !NulFree(p)
    ensures var made := MakeDirs(t, DirName(p));
            && (made.raised || OpenForWrite(made.disk, p, "").Err?)
            && p !in made.disk
            && ChangedOnlyAlong(t, made.disk, p)
            && (forall q :: q in made.disk && q !in t ==> IsAncestorOrSelf(q, p) && q != p)
  {
    MakeDirsChangesOnlyAlong(t, p);
  }

  /** The disk right after start-up: WORK_PATH and its ancestors are
      directories and nothing else exists.  WORK_PATH holds no NUL: with one,
      `makedirs` raises at start-up and the server never runs. */
  function StartupDisk(root: Segs): (t: Tree)
    requires ValidSegs(root) && NulFree(root)
    ensures WellFormed(t) && IsDir(t, root)
    ensures forall q :: q in t <==> IsAncestorOrSelf(q, root)
    ensures forall q :: q in t ==> t[q] == Dir
  {
    var empty: Tree := map[[] := Dir];
    assert !FileOnPath(empty, root) by {
      forall i | 0 <= i <= |root|
        ensures !IsFile(empty, root[..i])
      {
      }
    }
    assert root[..|root|] == root;
    var t := MakeDirs(empty, root).disk;
    assert forall q :: IsAncestorOrSelf(q, root) ==> q in t by {
      forall q | IsAncestorOrSelf(q, root)
        ensures q in t
      {
        assert q == root[..|q|];
      }
    }
    t
  }

  /** `shutil.rmtree(p)`: `p` and everything below it disappear and nothing
      else changes; what remains is still a tree. */
  function RemoveTree(t: Tree, p: Segs): (r: Tree)
    requires WellFormed(t) && p != []
    ensures WellFormed(r)
    ensures forall q :: q in r <==> q in t && !IsAncestorOrSelf(p, q)
    ensures forall q :: q in r ==> r[q] == t[q]
  {
    var r := map q | q in t && !IsAncestorOrSelf(p, q) :: t[q];
    assert forall q :: q in r && q != [] ==> IsDir(r, q[..|q| - 1]) by {
      forall q | q in r && q != []
        ensures IsDir(r, q[..|q| - 1])
      {
        var parent := q[..|q| - 1];
        assert IsDir(t, parent);
        if |p| <= |parent| {
          assert parent[..|p|] == q[..|p|];
        }
      }
    }
    assert !IsAncestorOrSelf(p, []);
    r
  }

  /** `os.remove(p)` on a regular file: it is the whole subtree at `p`. */
  lemma RemoveFileIsRemoveTree(t: Tree, p: Segs)
    requires WellFormed(t) && IsFile(t, p)
    ensures p != []
    ensures t - {p} == RemoveTree(t, p)
  {
    FileHasNoDescendants(t, p);
    assert IsAncestorOrSelf(p, p);
  }

  /** The names directly inside `p`, as `os.listdir` returns them (in some
      order). */
  function Children(t: Tree, p: Segs): (names: set<string>)
    ensures forall n :: n in names <==> p + [n] in t
  {
    var names := set q | q in t && |q| == |p| + 1 && q[..|p|] == p :: q[|p|];
    assert forall n :: n in names ==> p + [n] in t by {
      forall n | n in names
        ensures p + [n] in t
      {
        var q :| q in t && |q| == |p| + 1 && q[..|p|] == p && q[|p|] == n;
        assert q == p + [n];
      }
    }
    assert forall n :: p + [n] in t ==> n in names by {
      forall n | p + [n] in t
        ensures n in names
      {
        var q := p + [n];
        assert |q| == |p| + 1 && q[..|p|] == p && q[|p|] == n;
      }
    }
    names
  }

  // ---------------------------------------------------------------------
  // Listing entries

  /** `s.replace('\\', '/')`: every backslash becomes a separator. */
  function ReplaceBackslashes(s: string): (r: string)
    ensures |r| == |s|
    ensures '\\' !in r
    ensures '\\' !in s ==> r == s
    decreases |s|
  {
    if s == "" then ""
    else [if s[0] == '\\' then '/' else s[0]] + ReplaceBackslashes(s[1..])
  }

  /** The `path` of a listing entry: `os.path.join(path, item)` with every
      backslash made a separator and leading separators stripped, so never
      starting with a separator. */
  function EntryPath(path: string, name: string): (r: string)
    ensures r == "" || r[0] != '/'
  {
    LStripSlash(ReplaceBackslashes(Join(path, name)))
  }

  /** For a client path without backslashes or leading separators, an entry's
      path is the client path and the name joined by one separator. */
  lemma EntryPathJoins(path: string, name: string)
    requires ValidSegment(name) && '\\' !in name && '\\' !in path
    requires path == "" || path[0] != '/'
    ensures EntryPath(path, name) ==
              if path == "" || path[|path| - 1] == '/' then path + name else path + "/" + name
  {
    var j := Join(path, name);
    JoinKeepsNoBackslash(path, name);
    assert ReplaceBackslashes(j) == j;
    assert j[0] != '/' by {
      assert name[0] in name;
      if path == "" { assert j == name; }
    }
    assert LStripSlash(j) == j;
  }

  lemma JoinKeepsNoBackslash(path: string, name: string)
    requires name != "" && name[0] != '/' && '\\' !in name && '\\' !in path
    ensures '\\' !in Join(path, name)
  {
    var j := Join(path, name);
    assert j == path + name || j == path + "/" + name;
    assert forall k :: 0 <= k < |j| ==> j[k] in path || j[k] in name || j[k] == '/';
  }

  /** The entry `list_directory` reports for the child `name` of `p`:
      directories have size 0, files the length of their content. */
  function EntryOf(t: Tree, p: Segs, path: string, name: string): (e: Entry)
    requires p + [name] in t
    ensures e.name == name
  {
    match t[p + [name]]
    case Dir => Entry(name, DirectoryKind, EntryPath(path, name), 0)
    case File(c) => Entry(name, FileKind, EntryPath(path, name), |c|)
  }

  /** The fields of a listing entry: the child's name, the joined path, the
      kind of the child, and its size (the content length of a file, 0 for a
      directory). */
  lemma EntryFields(t: Tree, p: Segs, path: string, name: string)
    requires p + [name] in t
    ensures EntryOf(t, p, path, name).name == name
    ensures EntryOf(t, p, path, name).path == EntryPath(path, name)
    ensures EntryOf(t, p, path, name).kind == DirectoryKind <==> IsDir(t, p + [name])
    ensures EntryOf(t, p, path, name).kind == FileKind <==> IsFile(t, p + [name])
    ensures EntryOf(t, p, path, name).size ==
              if IsFile(t, p + [name]) then |t[p + [name]].content| else 0
  {
  }

  /** `contents` holds exactly one entry per child of `p`, each as `EntryOf`
      reports it. */
  ghost predicate ListsChildren(t: Tree, p: Segs, path: string, contents: seq<Entry>) {
    && (forall i :: 0 <= i < |contents| ==>
          p + [contents[i].name] in t && contents[i] == EntryOf(t, p, path, contents[i].name))
    && (forall n :: n in Children(t, p) ==> exists i :: 0 <= i < |contents| && contents[i].name == n)
    && (forall i, j :: 0 <= i < j < |contents| ==> contents[i].name != contents[j].name)
  }

  /** The names of `contents`, appended one at a time, are exactly the names
      in `done`, each added once. */
  ghost predicate NamedOnce(contents: seq<Entry>, done: set<string>)
    decreases |contents|
  {
    if contents == [] then done == {}
    else
      var last := contents[|contents| - 1];
      last.name in done && NamedOnce(contents[..|contents| - 1], done - {last.name})
  }

  /** Part way through the listing loop: `contents` holds one entry per name
      in `done`, each as `EntryOf` reports it. */
  ghost predicate ListsNames(t: Tree, p: Segs, path: string, contents: seq<Entry>, done: set<string>) {
    && NamedOnce(contents, done)
    && (forall i :: 0 <= i < |contents| ==>
          p + [contents[i].name] in t && contents[i] == EntryOf(t, p, path, contents[i].name))
  }

  /** One more step of the loop: appending the entry of a fresh child keeps
      the listing exact. */
  lemma ListsNamesStep(t: Tree, p: Segs, path: string, contents: seq<Entry>, done: set<string>,
                       name: string)
    requires ListsNames(t, p, path, contents, done)
    requires name !in done && p + [name] in t
    ensures ListsNames(t, p, path, contents + [EntryOf(t, p, path, name)], done + {name})
  {
    var next := contents + [EntryOf(t, p, path, name)];
    assert next[..|next| - 1] == contents;
    assert (done + {name}) - {name} == done;
    assert forall i :: 0 <= i < |contents| ==> next[i] == contents[i];
  }

  /** Every entry names a member of `done`. */
  lemma {:induction false} NamedOnceWithin(contents: seq<Entry>, done: set<string>)
    requires NamedOnce(contents, done)
    ensures forall i :: 0 <= i < |contents| ==> contents[i].name in done
    decreases |contents|
  {
    if contents != [] {
      var k := |contents| - 1;
      var front := contents[..k];
      NamedOnceWithin(front, done - {contents[k].name});
      forall i | 0 <= i < k
        ensures contents[i].name in done
      {
        assert contents[i] == front[i];
      }
    }
  }

  /** Every member of `done` has an entry. */
  lemma {:induction false} NamedOnceCovers(contents: seq<Entry>, done: set<string>)
    requires NamedOnce(contents, done)
    ensures forall n :: n in done ==> exists i :: 0 <= i < |contents| && contents[i].name == n
    decreases |contents|
  {
    if contents != [] {
      var k := |contents| - 1;
      var front := contents[..k];
      var rest := done - {contents[k].name};
      NamedOnceCovers(front, rest);
      forall n | n in done
        ensures exists i :: 0 <= i < |contents| && contents[i].name == n
      {
        if n == contents[k].name {
          assert contents[k].name == n;
        } else {
          assert n in rest;
          var i :| 0 <= i < |front| && front[i].name == n;
          assert contents[i].name == n;
        }
      }
    }
  }

  /** No name has two entries. */
  lemma {:induction false} NamedOnceDistinct(contents: seq<Entry>, done: set<string>)
    requires NamedOnce(contents, done)
    ensures forall i, j :: 0 <= i < j < |contents| ==> contents[i].name != contents[j].name
    decreases |contents|
  {
    if contents != [] {
      var k := |contents| - 1;
      var front := contents[..k];
      var rest := done - {contents[k].name};
      NamedOnceDistinct(front, rest);
      NamedOnceWithin(front, rest);
      forall i, j | 0 <= i < j < |contents|
        ensures contents[i].name != contents[j].name
      {
        assert contents[i] == front[i];
        if j < k {
          assert contents[j] == front[j];
        } else {
          assert front[i].name in rest;
        }
      }
    }
  }

  /** When every child is done, the listing is complete. */
  lemma ListsNamesDone(t: Tree, p: Segs, path: string, contents: seq<Entry>)
    requires ListsNames(t, p, path, contents, Children(t, p))
    ensures ListsChildren(t, p, path, contents)
  {
    NamedOnceCovers(contents, Children(t, p));
    NamedOnceDistinct(contents, Children(t, p));
  }

  /** A listing of a directory without children is empty. */
  lemma EmptyListing(t: Tree, p: Segs, path: string, contents: seq<Entry>)
    requires Children(t, p) == {} && ListsChildren(t, p, path, contents)
    ensures contents == []
  {
    if contents != [] {
      var n := contents[0].name;  // a child's name, yet there are none
      assert false;
    }
  }

  /** Entries with pairwise distinct names drawn from `names` are at most as
      many as `names`. */
  lemma {:induction false} DistinctNamesBound(contents: seq<Entry>, names: set<string>)
    requires forall i :: 0 <= i < |contents| ==> contents[i].name in names
    requires forall i, j :: 0 <= i < j < |contents| ==> contents[i].name != contents[j].name
    ensures |contents| <= |names|
  {
    if contents != [] {
      var last := contents[|contents| - 1];
      var front := contents[..|contents| - 1];
      forall i | 0 <= i < |front|
        ensures front[i].name in names - {last.name}
      {
        assert front[i] == contents[i];
      }
      DistinctNamesBound(front, names - {last.name});
    }
  }

  /** A listing of a directory holding one file of size N and one
      subdirectory has two entries: the file with size N and the
      subdirectory with size 0. */
  lemma ListingOfFileAndDir(t: Tree, p: Segs, path: string, contents: seq<Entry>,
                            f: string, d: string, text: string)
    requires ListsChildren(t, p, path, contents)
    requires Children(t, p) == {f, d} && f != d
    requires t[p + [f]] == File(text) && t[p + [d]] == Dir
    ensures |contents| == 2
    ensures exists i :: 0 <= i < 2 && contents[i] == Entry(f, FileKind, EntryPath(path, f), |text|)
    ensures exists i :: 0 <= i < 2 && contents[i] == Entry(d, DirectoryKind, EntryPath(path, d), 0)
  {
    forall k | 0 <= k < |contents|
      ensures contents[k].name in {f, d}
    {
      assert contents[k].name in Children(t, p);
    }
    assert f in Children(t, p) && d in Children(t, p);
    TwoNamesTwoEntries(contents, f, d);
    var i :| 0 <= i < |contents| && contents[i].name == f;
    var j :| 0 <= j < |contents| && contents[j].name == d;
    assert contents[i] == EntryOf(t, p, path, f);
    assert contents[j] == EntryOf(t, p, path, d);
  }

  /** Entries with distinct names, drawn from two names and covering both,
      are exactly two. */
  lemma TwoNamesTwoEntries(contents: seq<Entry>, f: string, d: string)
    requires f != d
    requires forall k :: 0 <= k < |contents| ==> contents[k].name in {f, d}
    requires forall i, j :: 0 <= i < j < |contents| ==> contents[i].name != contents[j].name
    requires exists i :: 0 <= i < |contents| && contents[i].name == f
    requires exists j :: 0 <= j < |contents| && contents[j].name == d
    ensures |contents| == 2
  {
    var i :| 0 <= i < |contents| && contents[i].name == f;
    var j :| 0 <= j < |contents| && contents[j].name == d;
    assert i != j;
    DistinctNamesBound(contents, {f, d});
  }

  // ---------------------------------------------------------------------
  // Handlers that only read

  /** The target of a handler whose `path` field is required: 400 when the
      field is absent or empty, 403 when `secure_path` aborts. */
  function Target(root: Segs, user: Option<string>): (r: Result<Segs>)
    requires ValidSegs(root)
    ensures r.Err? <==> user.None? || user.value == "" || SecurePath(root, user.value).Err?
    ensures r.Err? ==> r.error == (if user.None? || user.value == "" then MissingPath else Forbidden)
    ensures r.Ok? ==> ValidSegs(r.value) && StartsWith(Render(r.value), Render(root))
    ensures user.Some? && user.value != "" ==> r == SecurePath(root, user.value)
  {
    if user.None? || user.value == "" then Err(MissingPath) else SecurePath(root, user.value)
  }

  /** What a text-mode read (`open(p, 'r')`) returns for the stored text
      `s`: universal newlines turn every "\r\n" and every lone "\r" into
      "\n"; everything else comes through unchanged. */
  function UniversalNewlines(s: string): (r: string)
    ensures '\r' !in r
    ensures |r| <= |s|
    decreases |s|
  {
    if s == "" then ""
    else if s[0] == '\r' then
      "\n" + UniversalNewlines(if |s| >= 2 && s[1] == '\n' then s[2..] else s[1..])
    else [s[0]] + UniversalNewlines(s[1..])
  }

  /** A text without carriage returns reads back exactly as it was written. */
  lemma {:induction false} NoCarriageReturnReadsBack(s: string)
    requires '\r' !in s
    ensures UniversalNewlines(s) == s
    decreases |s|
  {
    if s != "" {
      assert s[0] in s;
      assert forall k :: 0 <= k < |s[1..]| ==> s[1..][k] == s[k + 1];
      NoCarriageReturnReadsBack(s[1..]);
      assert s == [s[0]] + s[1..];
    }
  }

  /** Reading twice changes nothing more: the translated text has no
      carriage return left to translate. */
  lemma UniversalNewlinesIdempotent(s: string)
    ensures UniversalNewlines(UniversalNewlines(s)) == UniversalNewlines(s)
  {
    NoCarriageReturnReadsBack(UniversalNewlines(s));
  }

  /** "x\r\ny" is written as is but read back as "x\ny". */
  lemma CarriageReturnExample(s: string)
    requires s == "x\r\ny"
    ensures UniversalNewlines(s) == "x\ny"
  {
    assert s[1..] == "\r\ny" && s[1..][2..] == "y";
    assert UniversalNewlines("y") == "y" by {
      assert "y"[1..] == "";
    }
  }

  /** `read_file`: 400 for a missing path, 403 from the sandbox, 404 when
      nothing exists there, 400 for a directory, and otherwise the stored
      text as a text-mode read returns it, together with the path as the
      client wrote it. */
  function ReadFile(t: Tree, root: Segs, user: Option<string>): (out: Outcome)
    requires ValidSegs(root)
    ensures out.Success? <==> Target(root, user).Ok? && IsFile(t, Target(root, user).value)
    ensures out.Success? ==>
              out == Success(200, FileContent(user.value, UniversalNewlines(t[Target(root, user).value].content)))
    ensures Target(root, user).Err? ==> out == Failure(Target(root, user).error)
    ensures Target(root, user).Ok? && Target(root, user).value !in t ==> out == Failure(NotFound)
    ensures Target(root, user).Ok? && IsDir(t, Target(root, user).value) ==> out == Failure(IsADirectory)
    ensures out != Failure(Unauthorized)
  {
    match Target(root, user)
    case Err(e) => Failure(e)
    case Ok(p) =>
      if p !in t then Failure(NotFound)
      else if t[p].Dir? then Failure(IsADirectory)
      else Success(200, FileContent(user.value, UniversalNewlines(t[p].content)))
  }
}
