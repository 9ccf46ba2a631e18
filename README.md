# File management API: path sandbox and whole-file operations

This project models the core of a small HTTP file server (`file_sever.py`).
The server serves one work directory (`WORK_PATH`) behind a shared password.
Clients list a directory, create an empty file, overwrite a file's content,
read a file, and delete a file or a whole directory tree. Every client path
goes through `secure_path`, which joins it onto the work directory,
normalises it the way `os.path.abspath` does, and refuses it (403) unless the
result starts with the work directory *as a string*.

The model has five modules:

- `Outcomes` holds the value types. These are the error kinds and their HTTP
  status codes, the listing entry, and the typed outcome of a request:
  `Success(code, body)` or `Failure(error)`.
- `PathSandbox` holds `secure_path` as segment and string algebra. A path is
  a sequence of segments, and `Render` turns it into the absolute path
  string. `Split`, `Glue`, `Join`, `LStripSlash` and `Normalize` follow
  Python's `str.split`, `str.join`, `os.path.join`, `str.lstrip` and the
  lexical part of `os.path.abspath`. `SecurePath` applies the server's exact
  test: a string prefix check on the rendered result.
- `AuthGate` holds `check_password`, the gate that runs before every request.
- `FileStore` holds the disk, a map from absolute segment paths to `Dir` or
  `File(content)`. The parent of every entry is a directory, "/" is always
  one, and no name holds NUL: Python refuses to pass such a name to the
  operating system. The module also holds the OS calls the handlers make
  (`os.makedirs`, `open(..., 'w')`, `shutil.rmtree` and `os.listdir`),
  the lemma that `os.remove` on a file is the removal of its one-entry
  subtree, the listing entry of one child, and `read_file`. `read_file`
  changes nothing, so it is a function of the disk. It reads in text mode,
  so "\r\n" and a lone "\r" come back as "\n" (`UniversalNewlines`).
- `FileServer` holds the class `Server`. Its mutable field `entries` is the
  disk. It has one method per view: list, create, write and delete. What
  each handler answers and leaves on the disk is a predicate (`Listed`,
  `Created`, `Written`, `Deleted`). `Handle` runs the password gate and then
  dispatches, and it promises the same predicates. `CreateWriteReadDelete` is a
  whole session against a fresh work directory.

The string prefix test lets a request escape into a *sibling* of the work
directory whose name extends the work directory's last name. With work
directory `/workspace`, the client path `../workspace-evil/secret.txt` is
admitted. The model keeps this behaviour exactly as written.
`SecurePathAdmits` characterises it, and `SiblingEscapes` and
`SiblingEscapeExample` exhibit it. The disk is therefore keyed by absolute
paths, not by paths relative to the work directory.

## Model

| member | source | states |
|---|---|---|
| PathSandbox.SecurePath | file_sever.py:10-14 | An admitted path is the normalised join of the work directory and the client path. It has no empty, "." or ".." segment, and its string starts with the work directory's string. A refused path gives 403 exactly when that prefix test fails. |
| PathSandbox.SecurePathAdmits | file_sever.py:11-13 | A client path is admitted if and only if its resolved path is the work directory, lies below it, or only extends the work directory's last name. This is the sibling case. |
| PathSandbox.StartsWith | file_sever.py:12 | `startswith` holds exactly when the string is the prefix followed by the rest of the string. |
| PathSandbox.RenderPrefix | file_sever.py:12 | For normalised paths, the string prefix test `startswith` holds exactly when one path is a segment-wise ancestor of the other, or extends its last name. |
| PathSandbox.SiblingEscapes | file_sever.py:11-13 | `../<sibling>/<name>` is admitted whenever `<sibling>` strictly extends the work directory's last name. It resolves into that sibling, which is not below the work directory. |
| PathSandbox.SiblingEscapeExample | file_sever.py:11-13 | Concrete witness: under `/workspace`, `../workspace-evil/secret.txt` is admitted as `/workspace-evil/secret.txt`, outside the work directory. |
| PathSandbox.TraversalRejected | file_sever.py:11-13 | Climbing two levels out of a one-level work directory into an unrelated directory is refused with 403. |
| PathSandbox.TraversalExample | file_sever.py:11-13 | Concrete instance: `../../etc/passwd` under `/workspace` is refused with 403. |
| PathSandbox.StripLeadingSlashes | file_sever.py:11 | Any number of leading `/` on the client path changes nothing: the path resolves like its root-relative form. |
| PathSandbox.NoParentRefStaysInside | file_sever.py:11-13 | A client path with no ".." component is always admitted, and it resolves segment-wise inside the work directory. |
| PathSandbox.PlainPathResolves | file_sever.py:11-14 | A relative path written segment by segment resolves to exactly those segments under the work directory. |
| PathSandbox.NormalizeAbsIdempotent | file_sever.py:11 | The normalisation is idempotent: normalising the rendered string of a normalised path gives back the same segments. |
| PathSandbox.JoinedShape | file_sever.py:11 | The joined string is the work directory, one separator, then the client path with its leading separators stripped. |
| PathSandbox.JoinedPathSingleRooted | file_sever.py:11 | The joined string starts with exactly one separator. So `abspath`'s special case for a leading "//" never arises. |
| PathSandbox.LStripSlash | file_sever.py:11 | `lstrip('/')` leaves a string that is empty or does not start with a separator, and is no longer than its argument. |
| PathSandbox.LStripSlashShape | file_sever.py:11 | What `lstrip('/')` removes is separators only: the argument is some number of separators followed by the result. |
| PathSandbox.Join | file_sever.py:11 | `os.path.join` (POSIX): an absolute second argument replaces the first. Otherwise the result starts with the first argument and ends with the second. |
| PathSandbox.Normalize | file_sever.py:11 | The component loop of `abspath` keeps only normal segments ("", "." and ".." never survive). It keeps separator-free components separator-free, and it never lengthens the path beyond the kept prefix plus the components. |
| PathSandbox.NormalizeAbs | file_sever.py:11 | `abspath` of an absolute path yields segments that are all valid: none is empty, ".", ".." or holds a separator. |
| PathSandbox.SplitGlue | file_sever.py:11 | `Split` behaves as Python's `str.split('/')`: joining its pieces with "/" gives back the string. |
| PathSandbox.RenderGlue | file_sever.py:11-12 | The rendered string of a non-root path is "/" followed by `'/'.join` of its segments. This is the string `abspath` returns and `startswith` tests. |
| AuthGate.CheckPassword | file_sever.py:15-22 | A rejection is always 401 Unauthorized, and only for a non-OPTIONS request without the right password. A non-OPTIONS request to a gated view that passes carries exactly the configured password. |
| AuthGate.OnlyThePasswordOpensTheGate | file_sever.py:20-22 | For every gated view and every method other than OPTIONS, the gate lets a request through if and only if `passwd` is present and equals the configured password. |
| AuthGate.PreflightBypassesTheGate | file_sever.py:17-18 | An OPTIONS request passes the gate whatever its password. |
| FileStore.DirName | file_sever.py:64 | `os.path.dirname` of an absolute path is its parent, one name shorter, and of "/" is "/". |
| FileStore.NulFreeLength | file_sever.py:64 | The number of leading names without NUL: all of them exactly when the path holds no NUL, and otherwise the next name holds one. This is how far `makedirs` gets before `mkdir` raises `ValueError`. |
| FileStore.MakeDirs | file_sever.py:64 | `makedirs(exist_ok=True)` raises if and only if a regular file lies on the way or a name holds NUL. A regular file on the way above the first NUL name means nothing changes. Otherwise every prefix up to the first NUL name is a directory and nothing else is added; a NUL name makes it raise only after that. Existing entries keep their values, and the disk stays well formed. |
| FileStore.OpenForWrite | file_sever.py:65 | `open(p, 'w')` succeeds if and only if no name on `p` holds NUL, `p` is not a directory and its parent is one. The file at `p` then holds exactly the written content, and every other path keeps its value. |
| FileStore.CreateSucceeds | file_sever.py:64-65 | When the target holds no NUL, no regular file blocks the parent and the target is not a directory, creation succeeds. The target becomes an empty file, even if it had content, and its ancestors become directories. Only paths along the target's line change. |
| FileStore.CreateOnDirectoryFails | file_sever.py:64-65 | On an existing directory, `makedirs` of the parent changes nothing and `open` fails. |
| FileStore.CreateWithNulFails | file_sever.py:64-65 | With a NUL anywhere on the target, `makedirs` of the parent or the following `open` raises. The target is never created, every path added is a proper ancestor of the target, and nothing off the line through the target changes. |
| FileStore.MakeDirsChangesOnlyAlong | file_sever.py:64 | Whether it raises or not, `makedirs` of the parent adds only proper ancestors of the target and changes nothing off the line through it. |
| FileStore.RemoveTree | file_sever.py:123-124 | `rmtree(p)` removes exactly `p` and its descendants. Every other path keeps its value, and the disk stays well formed. |
| FileStore.RemoveFileIsRemoveTree | file_sever.py:126-127 | Removing a regular file is the same as removing the subtree at it: a file has no descendants. |
| FileStore.StartupDisk | file_sever.py:136-138 | The disk right after `makedirs(WORK_PATH)` on an empty disk holds the work directory and its ancestors, all as directories. A WORK_PATH holding NUL makes that `makedirs` raise, so the server never starts with one. |
| FileStore.Children | file_sever.py:40 | `listdir` yields exactly the names `n` for which `p/n` exists. |
| FileStore.EntryPath | file_sever.py:42 | An entry's `path` never starts with a separator. |
| FileStore.EntryPathJoins | file_sever.py:42 | For a client path without backslashes or leading separators, an entry's path is the client path and the name joined by one separator. |
| FileStore.EntryFields | file_sever.py:43-49 | A listing entry carries the child's name and the joined path. Its type is "directory" exactly for a directory and "file" exactly for a regular file. Its size is the content length for a file and 0 for a directory. |
| FileStore.ReplaceBackslashes | file_sever.py:42 | The result has the same length and contains no backslash. A string without backslashes is left alone. |
| FileStore.ListsNamesStep | file_sever.py:40-49 | Appending the entry of a child not yet listed keeps the listing exact. This is the loop invariant's step. |
| FileStore.DistinctNamesBound | file_sever.py:40-49 | A listing with distinct names drawn from the children has at most as many entries as there are children. |
| FileStore.ListingOfFileAndDir | file_sever.py:40-49 | A directory with one file and one subdirectory lists exactly two entries. One is the file, with its content length as size; the other is the directory, with size 0. |
| FileStore.Target | file_sever.py:61-63 | The handler's target gives 400 if and only if the path is absent or empty, and 403 if and only if the sandbox refuses it. For a present, non-empty path it is exactly `secure_path`'s result. |
| FileStore.UniversalNewlines | file_sever.py:103-104 | A text-mode read leaves no carriage return in what it returns, and never returns more characters than are stored. |
| FileStore.NoCarriageReturnReadsBack | file_sever.py:103-104 | Stored text without a carriage return reads back unchanged. |
| FileStore.UniversalNewlinesIdempotent | file_sever.py:103-104 | Translating newlines a second time changes nothing. |
| FileStore.CarriageReturnExample | file_sever.py:103-104 | Concrete instance: "x\r\ny" is stored as written but reads back as "x\ny". |
| FileStore.ReadFile | file_sever.py:95-108 | Checked in this order: 400 for a missing path, 403 from the sandbox, 404 when nothing is there, 400 for a directory. Otherwise the result is the stored content as a text-mode read returns it, with "\r\n" and "\r" turned into "\n". It succeeds if and only if the target is a regular file, and it never answers 401. |
| Outcomes.StatusOf | file_sever.py:13-38 | Each error kind has its HTTP status. 401 is only the password gate's, 403 only the sandbox's, 404 only a missing path's, 500 only an uncaught exception's, and every other refusal is 400. |
| FileServer.EndpointName | file_sever.py:20 | Every view's name is one of the gated endpoints. |
| FileServer.Server.ListDirectory | file_sever.py:33-50 | 403 from the sandbox, 404 when nothing is there, 400 for a regular file. Otherwise there is exactly one entry per child: directories have size 0, files have their content length, and each path is the client path joined with the name. The disk is unchanged, and the handler never answers 401. |
| FileServer.Server.ListEntries | file_sever.py:39-49 | The loop over `listdir` builds exactly one entry per child, as the entry function describes it. |
| FileServer.Server.CreateFile | file_sever.py:59-66 | 400 for a missing path and 403 from the sandbox. If a regular file is on the way or the target is a directory, the result is 500 and the disk is unchanged. Otherwise the missing ancestors up to the first name holding NUL become directories. A NUL anywhere on the target then gives 500 with the target not created. Without one, the result is 201 and the target is an empty file that reads back as "". Only paths along the target change, and the handler never answers 401. |
| FileServer.Server.WriteFile | file_sever.py:75-85 | 400 for a missing path, 403 from the sandbox, 400 for a directory, and 500 when a name on the target holds NUL or the parent is not a directory; in these cases the disk is unchanged. Otherwise the disk is the old one with the target set to the content (default ""). Reading it back gives that content as a text-mode read returns it: exactly the content when it holds no carriage return. The handler never answers 401. |
| FileServer.Server.DeletePath | file_sever.py:117-128 | 400 for a missing path, 403 from the sandbox, 404 when nothing is there. Otherwise exactly the target and its descendants are gone and every other path keeps its value. The result reports whether a directory was removed, and the target then reads as 404. The handler never answers 401. |
| FileServer.Server.Handle | file_sever.py:15-22 | A wrong password on a non-OPTIONS request gives 401 and leaves the disk unchanged. An OPTIONS request gets the preflight answer. A non-OPTIONS request carrying the password never gets 401. It reaches its handler, and its outcome and new disk are exactly that handler's: list, create, write, read or delete. List and read never change the disk. Only paths along the request's target can change. The answer's status is 401 exactly when the gate refused the request. |
| FileServer.CreateWriteReadDelete | file_sever.py:59-128 | On a fresh work directory, this session runs: create `dir/name` (201), write `text` into it (200), read it back (`text` with its newlines translated, and exactly `text` when it holds no carriage return), delete `dir` (a directory), then list `dir` (404). Neither `dir` nor `name` holds NUL. |
| FileServer.NulNameSession | file_sever.py:59-108 | On a fresh work directory, with a NUL in `name` only: creating `dir/name` gives 500, but `makedirs` has already created `dir`, which now lists as empty (200). Writing `dir/name` gives 500, and reading it gives 404. |
| FileStore.EmptyListing | file_sever.py:39-49 | A directory without children lists no entries. |

## Left out

- Flask plumbing is not modelled: app setup, routing decorators, `make_response`/`jsonify`, CORS headers, the OPTIONS branches inside the views, and 405 for an unrouted method. A request reaches the model already routed to its view (`Op`).
- The command-line start-up is not modelled: `argparse`, `print` and `app.run`. The work directory and the password are constructor parameters, and the constructor takes any disk on which the work directory exists. StartupDisk is that disk right after start-up on an empty disk.
- Real filesystem behaviour is not modelled: symbolic links, permissions, disk-full and other I/O errors, text encoding, and concurrent requests.
- FileStore.Children: `os.listdir` order is unspecified, so children form a set. ListEntries takes them in any order, and its contract does not fix the order of the entries.
- FileStore.EntryOf: a file's size is the number of characters of its content, not the number of bytes after encoding.
- PathSandbox.NormalizeAbs models `os.path.abspath` only for absolute paths that start with exactly one separator. WORK_PATH is assumed to start with exactly one "/": `abspath` keeps exactly two leading separators, so `-workpath //srv` would give the WORK_PATH "//srv", and a segment path cannot represent it. For a WORK_PATH with one leading "/", every joined path also starts with exactly one (JoinedPathSingleRooted), so the "//" rule is not modelled.
- Only POSIX path behaviour is modelled: "/" is the only separator, and there are no drive letters. On Windows, `ntpath` also treats "\\" as a separator, and that is why the listing replaces backslashes. That platform's behaviour is not modelled.
- FileServer.Server.DeletePath: `shutil.rmtree("/")` is reachable only when the work directory is "/". It is modelled as a 500 with the disk unchanged, not as a partial removal.
- A request body that is not JSON, or a `path`/`content` field that is not a string (null, a number), is not modelled. Fields are optional strings. An absent `content` means "", as `data.get('content', '')` gives.
- The Scratch browser extension `file_Ex.js` is a network client with no server-side logic, so it is not part of this model.
