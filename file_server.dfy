/** The running server: the configured work directory and password, the disk
    it serves, and one method per view function.  Each request first passes
    the password gate, then reaches the handler of the view it was routed to. */
module FileServer {
  import opened Outcomes
  import opened PathSandbox
  import opened AuthGate
  import opened FileStore

  /** The view a request was routed to (by URL and HTTP method). */
  datatype Op = ListOp | CreateOp | WriteOp | ReadOp | DeleteOp

  /** The name under which each view is registered, as the gate sees it. */
  function EndpointName(op: Op): (name: string)
    ensures name in GatedEndpoints
  {
    match op
    case ListOp => "list_directory"
    case CreateOp => "create_file"
    case WriteOp => "write_file"
    case ReadOp => "read_file"
    case DeleteOp => "delete_path"
  }

  /** One request: its HTTP method, the routed view, the `passwd` query
      argument, and the `path` and `content` fields (query argument or JSON
      body, depending on the view). */
  datatype Request = Request(verb: string, op: Op, passwd: Option<string>,
                             path: Option<string>, content: Option<string>)

  // ---------------------------------------------------------------------
  // What each handler answers and leaves on the disk; the handlers and
  // `Handle` promise these.

  /** `list_directory` on the disk `t`: 403 from the sandbox, 404 when
      nothing is there, 400 for a regular file, and otherwise a 200 listing
      with one entry per child. */
  ghost predicate Listed(t: Tree, root: Segs, path: string, out: Outcome)
    requires ValidSegs(root)
  {
    match SecurePath(root, path)
    case Err(_) => out == Failure(Forbidden)
    case Ok(p) =>
      if p !in t then out == Failure(NotFound)
      else if IsFile(t, p) then out == Failure(NotADirectory)
      else
        && out.Success? && out.code == 200 && out.body.Listing? && out.body.path == path
        && ListsChildren(t, p, path, out.body.contents)
  }

  /** `create_file` from `before` to `after`: 400 or 403 for a bad path; 500
      with nothing changed when a regular file is on the way or the target is
      a directory.  Otherwise the missing ancestors become directories, up
      to the first name holding NUL if there is one; then a NUL anywhere on
      the target means 500 with the target not created, and without one the
      answer is 201 and the target is an empty file.  No other path
      changes. */
  ghost predicate Created(before: Tree, after: Tree, root: Segs, user: Option<string>, out: Outcome)
    requires ValidSegs(root)
  {
    match Target(root, user)
    case Err(e) => out == Failure(e) && after == before
    case Ok(p) =>
      var made := DirName(p)[..NulFreeLength(DirName(p))];
      if FileOnPath(before, made) || IsDir(before, p) then
        out == Failure(ServerError) && after == before
      else if !NulFree(p) then
        && out == Failure(ServerError)
        && after.Keys == before.Keys + Prefixes(made)
        && (forall q :: q in Prefixes(made) ==> after[q] == Dir)
        && (forall q :: q in before ==> after[q] == before[q])
      else
        && out == Success(201, FileCreated(user.value))
        && after.Keys == before.Keys + Prefixes(made) + {p}
        && after[p] == File("")
        && (forall q :: q in Prefixes(made) ==> after[q] == Dir)
        && (forall q :: q in before && q != p ==> after[q] == before[q])
  }

  /** `write_file` from `before` to `after`: 400 or 403 for a bad path, 400
      for a directory, 500 when the parent is not a directory (nothing
      changes in these cases); otherwise 200 and the target alone is set to
      the content, "" when the field is absent.  A NUL in the target makes
      `open` raise: 500, nothing changed. */
  ghost predicate Written(before: Tree, after: Tree, root: Segs, user: Option<string>,
                          content: Option<string>, out: Outcome)
    requires ValidSegs(root)
  {
    match Target(root, user)
    case Err(e) => out == Failure(e) && after == before
    case Ok(p) =>
      if IsDir(before, p) then
        out == Failure(IsADirectory) && after == before
      else if !NulFree(p) || !IsDir(before, DirName(p)) then
        out == Failure(ServerError) && after == before
      else
        && out == Success(200, ContentWritten(user.value))
        && after == before[p := File(content.GetOr(""))]
  }

  /** `delete_path` from `before` to `after`: 400 or 403 for a bad path, 404
      when nothing is there, 500 for "/" itself (nothing changes in these
      cases); otherwise 200, reporting whether a directory went, and exactly
      the target and its descendants are gone. */
  ghost predicate Deleted(before: Tree, after: Tree, root: Segs, user: Option<string>, out: Outcome)
    requires ValidSegs(root)
  {
    match Target(root, user)
    case Err(e) => out == Failure(e) && after == before
    case Ok(p) =>
      if p !in before then
        out == Failure(NotFound) && after == before
      else if p == [] then
        out == Failure(ServerError) && after == before
      else
        && out == Success(200, PathDeleted(user.value, before[p].Dir?))
        && (forall q :: q in after <==> q in before && !IsAncestorOrSelf(p, q))
        && (forall q :: q in after ==> after[q] == before[q])
  }

  class Server {
    /** WORK_PATH, normalised. */
    const root: Segs
    /** API_PASSWORD. */
    const password: string
    /** The disk, keyed by absolute path. */
    var entries: Tree

    ghost predicate Valid()
      reads this
    {
      ValidSegs(root) && WellFormed(entries)
    }

    /** Start-up: the work directory exists on the disk the server is given. */
    constructor(root: Segs, password: string, disk: Tree)
      requires ValidSegs(root) && WellFormed(disk) && IsDir(disk, root)
      ensures Valid()
      ensures this.root == root && this.password == password && entries == disk
    {
      this.root := root;
      this.password := password;
      entries := disk;
    }

    /** `list_directory`: 403 from the sandbox, 404 when nothing is there,
        400 for a regular file, and otherwise one entry per child, the disk
        left as it was. */
    method ListDirectory(path: string) returns (out: Outcome)
      requires Valid()
      ensures Listed(entries, root, path, out)
      ensures out != Failure(Unauthorized)
    {
      var target := SecurePath(root, path);
      if target.Err? {
        return Failure(target.error);
      }
      var p := target.value;
      if p !in entries {
        return Failure(NotFound);
      }
      if !entries[p].Dir? {
        return Failure(NotADirectory);
      }
      var contents := ListEntries(p, path);
      return Success(200, Listing(path, contents));
    }

    /** The loop of `list_directory`: one entry per name `os.listdir`
        yields, taken in whatever order the set gives them. */
    method ListEntries(p: Segs, path: string) returns (contents: seq<Entry>)
      requires IsDir(entries, p)
      ensures ListsChildren(entries, p, path, contents)
    {
      var t := entries;
      var children := Children(t, p);
      var remaining := children;
      ghost var done: set<string> := {};
      contents := [];
      while remaining != {}
        invariant done + remaining == children && done !! remaining
        invariant ListsNames(t, p, path, contents, done)
        decreases remaining
      {
        var item :| item in remaining;
        var itemPath := p + [item];
        var entry;
        if t[itemPath].Dir? {
          entry := Entry(item, DirectoryKind, EntryPath(path, item), 0);
        } else {
          entry := Entry(item, FileKind, EntryPath(path, item), |t[itemPath].content|);
        }
        assert entry == EntryOf(t, p, path, item);
        ListsNamesStep(t, p, path, contents, done, item);
        contents := contents + [entry];
        done := done + {item};
        remaining := remaining - {item};
      }
      ListsNamesDone(t, p, path, contents);
    }

    /** `create_file`: 400 for a missing path, 403 from the sandbox; a
        regular file on the way to the target, or a directory at the target,
        makes `makedirs` or `open` raise (500) and nothing changes; otherwise
        the missing ancestors become directories and the target an empty
        file, and nothing else changes.  A NUL on the target also ends in
        500, after `makedirs` has created what it could. */
    method CreateFile(user: Option<string>) returns (out: Outcome)
      requires Valid()
      modifies this
      ensures Valid()
      ensures Created(old(entries), entries, root, user, out)
      ensures out != Failure(Unauthorized)
      ensures out.Success? ==> ReadFile(entries, root, user) == Success(200, FileContent(user.value, ""))
      ensures Target(root, user).Ok? ==> ChangedOnlyAlong(old(entries), entries, Target(root, user).value)
    {
      var target := Target(root, user);
      if target.Err? {
        return Failure(target.error);
      }
      var p := target.value;
      if IsDir(entries, p) {
        CreateOnDirectoryFails(entries, p);
      } else if !NulFree(p) {
        CreateWithNulFails(entries, p);
      } else {
        ParentNulFree(p);
        if !FileOnPath(entries, DirName(p)) {
          CreateSucceeds(entries, p);
        }
      }
      var made := MakeDirs(entries, DirName(p));
      entries := made.disk;
      if made.raised {
        return Failure(ServerError);
      }
      var written := OpenForWrite(entries, p, "");
      if written.Err? {
        return Failure(ServerError);
      }
      entries := written.value;
      assert IsFile(entries, p) && UniversalNewlines(entries[p].content) == "";
      return Success(201, FileCreated(user.value));
    }

    /** `write_file`: 400 for a missing path, 403 from the sandbox, 400 for a
        directory; a NUL on the target or a missing or non-directory parent
        makes `open` raise (500); otherwise the target holds exactly the content (empty when the
        field is absent) and nothing else changes. */
    method WriteFile(user: Option<string>, content: Option<string>) returns (out: Outcome)
      requires Valid()
      modifies this
      ensures Valid()
      ensures Written(old(entries), entries, root, user, content, out)
      ensures out != Failure(Unauthorized)
      ensures out.Success? ==>
                ReadFile(entries, root, user) ==
                  Success(200, FileContent(user.value, UniversalNewlines(content.GetOr(""))))
      ensures Target(root, user).Ok? ==> ChangedOnlyAlong(old(entries), entries, Target(root, user).value)
    {
      var target := Target(root, user);
      if target.Err? {
        return Failure(target.error);
      }
      var p := target.value;
      if p in entries && entries[p].Dir? {
        return Failure(IsADirectory);
      }
      var written := OpenForWrite(entries, p, content.GetOr(""));
      if written.Err? {
        return Failure(ServerError);
      }
      SetChangesOnlyAlong(entries, p, File(content.GetOr("")));
      entries := written.value;
      return Success(200, ContentWritten(user.value));
    }

    /** `delete_path`: 400 for a missing path, 403 from the sandbox, 404 when
        nothing is there; otherwise the target and everything below it are
        gone and every other path is as it was.  Removing "/" itself (only
        reachable when the work directory is "/") fails with 500. */
    method DeletePath(user: Option<string>) returns (out: Outcome)
      requires Valid()
      modifies this
      ensures Valid()
      ensures Deleted(old(entries), entries, root, user, out)
      ensures out != Failure(Unauthorized)
      ensures out.Success? ==> ReadFile(entries, root, user) == Failure(NotFound)
      ensures Target(root, user).Ok? ==> ChangedOnlyAlong(old(entries), entries, Target(root, user).value)
    {
      var target := Target(root, user);
      if target.Err? {
        return Failure(target.error);
      }
      var p := target.value;
      if p !in entries {
        return Failure(NotFound);
      }
      if entries[p].Dir? {
        if p == [] {
          return Failure(ServerError);
        }
        entries := RemoveTree(entries, p);
        assert IsAncestorOrSelf(p, p);
        return Success(200, PathDeleted(user.value, true));
      } else {
        RemoveFileIsRemoveTree(entries, p);
        entries := entries - {p};
        assert IsAncestorOrSelf(p, p);
        return Success(200, PathDeleted(user.value, false));
      }
    }

    /** One request end to end: the password gate, the preflight answer, and
        the routed handler.  A rejected request, a preflight, a listing and a
        read leave the disk as it was; the other handlers change it only
        along the line through their target. */
    method Handle(req: Request) returns (out: Outcome)
      requires Valid()
      modifies this
      ensures Valid()
      ensures req.verb != "OPTIONS" && req.passwd != Some(password) ==>
                out == Failure(Unauthorized) && entries == old(entries)
      ensures req.verb == "OPTIONS" ==> out == Success(200, Preflight) && entries == old(entries)
      ensures out.Success? && req.verb != "OPTIONS" ==> req.passwd == Some(password)
      ensures req.op == ListOp || req.op == ReadOp ==> entries == old(entries)
      ensures req.verb != "OPTIONS" && req.passwd == Some(password) ==> out != Failure(Unauthorized)
      ensures out.Status() == 401 <==> req.verb != "OPTIONS" && req.passwd != Some(password)
      ensures req.verb != "OPTIONS" && req.passwd == Some(password) ==>
                match req.op
                case ListOp => Listed(old(entries), root, req.path.GetOr(""), out)
                case CreateOp => Created(old(entries), entries, root, req.path, out)
                case WriteOp => Written(old(entries), entries, root, req.path, req.content, out)
                case ReadOp => out == ReadFile(old(entries), root, req.path)
                case DeleteOp => Deleted(old(entries), entries, root, req.path, out)
      ensures Target(root, req.path).Err? ==> entries == old(entries)
      ensures Target(root, req.path).Ok? ==>
                ChangedOnlyAlong(old(entries), entries, Target(root, req.path).value)
    {
      var rejection := CheckPassword(req.verb, Some(EndpointName(req.op)), req.passwd, password);
      if rejection.Some? {
        return Failure(rejection.value);
      }
      if req.verb == "OPTIONS" {
        return Success(200, Preflight);
      }
      match req.op
      case ListOp =>
        out := ListDirectory(req.path.GetOr(""));
      case CreateOp =>
        out := CreateFile(req.path);
      case WriteOp =>
        out := WriteFile(req.path, req.content);
      case ReadOp =>
        out := ReadFile(entries, root, req.path);
      case DeleteOp =>
        out := DeletePath(req.path);
    }
  }

  /** The two client paths of the session below resolve to `dir` and to
      `dir/name` under WORK_PATH. */
  lemma SessionPaths(root: Segs, dir: string, name: string)
    requires ValidSegs(root) && ValidSegment(dir) && ValidSegment(name)
    ensures Target(root, Some(dir + "/" + name)) == Ok(root + [dir, name])
    ensures Target(root, Some(dir)) == Ok(root + [dir])
  {
    OneSegmentResolves(root, dir);
    TwoSegmentsResolve(root, dir, name);
    assert |dir + "/" + name| > 0 && |dir| > 0;
  }

  lemma SessionParent(root: Segs, dir: string, name: string)
    ensures DirName(root + [dir, name]) == root + [dir]
  {
    DirNameOfChild(root + [dir], name);
    assert root + [dir] + [name] == root + [dir, name];
  }

  /** Without NUL in `dir` and `name`, `makedirs` of the parent of
      `dir/name` works on the whole parent. */
  lemma SessionNulFree(root: Segs, dir: string, name: string)
    requires NulFree(root) && '\0' !in dir && '\0' !in name
    ensures NulFree(root + [dir, name])
    ensures (root + [dir])[..NulFreeLength(root + [dir])] == root + [dir]
  {
    assert NulFree(root + [dir]) by {
      assert forall i :: 0 <= i < |root| ==> (root + [dir])[i] == root[i];
    }
    assert (root + [dir])[..|root| + 1] == root + [dir];
    assert forall i :: 0 <= i < |root| + 1 ==> (root + [dir, name])[i] == (root + [dir])[i];
  }

  /** On the start-up disk nothing stands in the way of creating
      `dir/name`. */
  lemma StartupAllowsCreate(root: Segs, dir: string, name: string)
    requires ValidSegs(root) && NulFree(root) && ValidSegment(dir) && ValidSegment(name)
    ensures !FileOnPath(StartupDisk(root), root + [dir])
    ensures !IsDir(StartupDisk(root), root + [dir, name])
  {
    var parent := root + [dir];
    forall i | 0 <= i <= |parent|
      ensures !IsFile(StartupDisk(root), parent[..i])
    {
    }
    assert !IsAncestorOrSelf(root + [dir, name], root);
  }

  /** A session against a fresh work directory: create `dir/name`, write
      `text` into it, read it back, delete `dir`, then list `dir`.  The
      create answers 201, the write 200, the read returns `text` as a text-mode read gives it back (exactly
      `text` when it holds no carriage return), the delete
      reports a directory, and the listing no longer finds it. */
  method CreateWriteReadDelete(root: Segs, password: string, dir: string, name: string, text: string)
    returns (created: Outcome, written: Outcome, read: Outcome, deleted: Outcome, listed: Outcome)
    requires ValidSegs(root) && NulFree(root) && ValidSegment(dir) && ValidSegment(name)
    requires '\0' !in dir && '\0' !in name
    ensures created == Success(201, FileCreated(dir + "/" + name))
    ensures written == Success(200, ContentWritten(dir + "/" + name))
    ensures read == Success(200, FileContent(dir + "/" + name, UniversalNewlines(text)))
    ensures '\r' !in text ==> read.body.content == text
    ensures deleted == Success(200, PathDeleted(dir, true))
    ensures listed == Failure(NotFound)
  {
    var user := dir + "/" + name;
    SessionPaths(root, dir, name);
    SessionParent(root, dir, name);
    SessionNulFree(root, dir, name);
    StartupAllowsCreate(root, dir, name);
    var parent := root + [dir];
    var server := new Server(root, password, StartupDisk(root));
    created := server.CreateFile(Some(user));
    assert parent in Prefixes(parent);
    assert IsDir(server.entries, parent) && server.entries[root + [dir, name]] == File("");
    written := server.WriteFile(Some(user), Some(text));
    assert IsDir(server.entries, parent);
    read := ReadFile(server.entries, root, Some(user));
    deleted := server.DeletePath(Some(dir));
    assert IsAncestorOrSelf(parent, parent);
    assert parent !in server.entries;
    listed := server.ListDirectory(dir);
    if '\r' !in text {
      NoCarriageReturnReadsBack(text);
    }
  }

  /** The paths of the session below: `dir` holds no NUL, `dir/name` does,
      so `makedirs` of the parent of `dir/name` reaches all of `dir`. */
  lemma NulSessionPaths(root: Segs, dir: string, name: string)
    requires NulFree(root) && '\0' !in dir && '\0' in name
    ensures NulFree(root + [dir]) && !NulFree(root + [dir, name])
    ensures DirName(root + [dir, name]) == root + [dir]
    ensures (root + [dir])[..NulFreeLength(root + [dir])] == root + [dir]
  {
    SessionParent(root, dir, name);
    assert (root + [dir, name])[|root| + 1] == name;
    assert (root + [dir])[..|root| + 1] == root + [dir];
  }

  /** A directory whose only additions over the start-up disk are its own
      ancestors has no children. */
  lemma NothingInsideNewDirectory(root: Segs, dir: string, t: Tree)
    requires ValidSegs(root) && NulFree(root)
    requires t.Keys == StartupDisk(root).Keys + Prefixes(root + [dir])
    ensures Children(t, root + [dir]) == {}
  {
    forall n
      ensures root + [dir] + [n] !in t
    {
      var q := root + [dir] + [n];
      assert |q| == |root| + 2;
    }
  }

  /** A NUL in the file name, against a fresh work directory.  Creating
      `dir/name` answers 500, yet `makedirs` has already created `dir`,
      which now lists as an empty directory; writing `dir/name` answers 500
      too, and reading it finds nothing. */
  method NulNameSession(root: Segs, password: string, dir: string, name: string, text: string)
    returns (created: Outcome, written: Outcome, read: Outcome, listed: Outcome)
    requires ValidSegs(root) && NulFree(root) && ValidSegment(dir) && ValidSegment(name)
    requires '\0' !in dir && '\0' in name
    ensures created == Failure(ServerError)
    ensures written == Failure(ServerError)
    ensures read == Failure(NotFound)
    ensures listed == Success(200, Listing(dir, []))
  {
    var user := dir + "/" + name;
    SessionPaths(root, dir, name);
    NulSessionPaths(root, dir, name);
    StartupAllowsCreate(root, dir, name);
    var parent := root + [dir];
    var server := new Server(root, password, StartupDisk(root));
    created := server.CreateFile(Some(user));
    NothingInsideNewDirectory(root, dir, server.entries);
    assert parent in Prefixes(parent);
    assert IsDir(server.entries, parent) && root + [dir, name] !in server.entries;
    written := server.WriteFile(Some(user), Some(text));
    read := ReadFile(server.entries, root, Some(user));
    listed := server.ListDirectory(dir);
    EmptyListing(server.entries, parent, dir, listed.body.contents);
  }
}
