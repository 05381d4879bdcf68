/** The local-filesystem storage backend: every request path is resolved against a fixed root
    directory, refused when the resolved path does not start with the root, and then served by
    the operating system's calls on the tree below. */
module Local {
  import opened Common
  import opened Strs
  import opened PathLex
  import opened Os
  import opened StrOrder
  import opened Storage

  // ---------------------------------------------------------------------------------------
  // Resolving request paths
  // ---------------------------------------------------------------------------------------

  /** `safePath`: "" and "/" name the root; anything else is joined under the root, cleaned, and
      accepted only when the result starts with the root string. */
  function SafePath(root: string, requested: string): (r: Result<string, StorageError>)
    requires IsAbsClean(root)
    ensures (requested == "" || requested == "/") ==> r == Ok(root)
    ensures r.Ok? ==> root <= r.value && IsAbsClean(r.value)
    ensures r.Err? ==> r.error == Permission
  {
    if requested == "" || requested == "/" then Ok(root)
    else
      var joined := Clean(root + "/" + requested);
      var cleaned := Clean(joined);
      CleanIdempotent(root + "/" + requested);
      CleanRooted(root + "/" + requested);
      if !(root <= cleaned) then Err(Permission) else Ok(cleaned)
  }

  /** The resolution `safePath` performs, as components: the request's segments are scanned on
      top of the root's components. */
  function Resolve(root: string, requested: string): (cs: seq<string>)
    ensures Normal(cs, true)
  {
    SplitNoSlash(root);
    SplitNoSlash(requested);
    RunNormal([], Split(root), true);
    RunNormal(Components(root), Split(requested), true);
    Run(Components(root), Split(requested), true)
  }

  /** `safePath` is "scan the request on top of the root, then compare strings"; the special
      case for "" and "/" gives the same answer as the general rule. */
  lemma SafePathResolves(root: string, requested: string)
    requires IsAbsClean(root)
    ensures Normal(Resolve(root, requested), true)
    ensures SafePath(root, requested) ==
              (var full := AbsPath(Resolve(root, requested));
               if root <= full then Ok(full) else Err(Permission))
  {
    var x := root + "/" + requested;
    var cr := Components(root);
    var cs := Resolve(root, requested);
    SplitAppend(root, requested);
    RunAppend([], Split(root), Split(requested), true);
    assert Components(x) == cs;
    CleanRooted(x);
    CleanOfAbsPath(cs);
    AbsCleanComponents(root);
    if requested == "" {
      assert Split(requested) == [""];
      assert cs == cr;
    } else if requested == "/" {
      assert Split(requested) == ["", ""] by {
        assert requested[1..] == "";
      }
      assert Run(cr, ["", ""], true) == Run(cr, [""], true);
      assert cs == cr;
    }
  }

  /** Whether a resolved path lies in the root's subtree, component by component. */
  ghost predicate WithinRoot(root: string, full: string)
  {
    Components(root) <= Components(full)
  }

  /** The prefix test is at least as permissive as subtree containment on clean paths. */
  lemma WithinRootPassesPrefix(root: string, cs: seq<string>)
    requires IsAbsClean(root) && Components(root) <= cs
    ensures root <= AbsPath(cs)
  {
    var cr := Components(root);
    AbsCleanComponents(root);
    var rest := cs[|cr|..];
    assert cs == cr + rest;
    if cr != [] && rest != [] {
      JoinAppend(cr, rest);
      assert AbsPath(cs) == root + "/" + Join(rest);
    } else if cr == [] {
      assert root == "/";
    } else {
      assert cs == cr;
    }
  }

  /** A request none of whose '/'-separated segments is ".." is accepted, and resolves to the
      root's components followed by the request's own components. */
  lemma SafePathAcceptsPlain(root: string, requested: string)
    requires IsAbsClean(root)
    requires forall i :: 0 <= i < |Split(requested)| ==> Split(requested)[i] != ".."
    ensures SafePath(root, requested) == Ok(AbsPath(Components(root) + Components(requested)))
    ensures WithinRoot(root, SafePath(root, requested).value)
  {
    SafePathResolves(root, requested);
    RunNoParent(Components(root), Split(requested), true);
    var cs := Components(root) + Components(requested);
    assert Resolve(root, requested) == cs;
    WithinRootPassesPrefix(root, cs);
    CleanOfAbsPath(cs);
  }

  /** A leading '/' on the request makes no difference: requests are always relative to the
      root. */
  lemma SafePathLeadingSlash(root: string, requested: string)
    requires IsAbsClean(root)
    ensures SafePath(root, "/" + requested) == SafePath(root, requested)
  {
    SafePathResolves(root, requested);
    SafePathResolves(root, "/" + requested);
    SplitOfRooted(requested);
    RunAppend(Components(root), [""], Split(requested), true);
    assert [""] + Split(requested) == Split("/" + requested);
  }

  /** Whatever `safePath` returns starts with the root string (the promise it makes), and a path
      it refuses is one whose resolution does not. */
  lemma SafePathPrefix(root: string, requested: string)
    requires IsAbsClean(root)
    ensures SafePath(root, requested).Ok? <==> root <= AbsPath(Resolve(root, requested))
  {
    SafePathResolves(root, requested);
  }

  lemma NotPrefixAt(a: string, b: string, i: nat)
    requires i < |a| && i < |b| && a[i] != b[i]
    ensures !(a <= b)
  {
  }

  /** A request whose segments resolve, on top of the root, to `landing` gets that path back
      when it starts with the root, and `Permission` otherwise. */
  lemma SafePathOfSegments(root: string, requested: string, segs: seq<string>, landing: seq<string>)
    requires IsAbsClean(root)
    requires |segs| >= 1 && NoSlash(segs) && Join(segs) == requested
    requires Run(Components(root), segs, true) == landing
    ensures SafePath(root, requested) ==
              if root <= AbsPath(landing) then Ok(AbsPath(landing)) else Err(Permission)
  {
    SplitJoin(segs);
    SafePathResolves(root, requested);
  }

  // The literal test vectors below, as '/'-joins of their segments. Each such fact is proved
  // on its own: the verifier handles one literal at a time far better than several together.

  lemma JoinedParent()
    ensures Join(["..", "etc", "passwd"]) == "../etc/passwd"
  {
  }

  lemma JoinedGrandparent()
    ensures Join(["..", "..", "etc", "shadow"]) == "../../etc/shadow"
  {
  }

  lemma JoinedThroughSubdir()
    ensures Join(["subdir", "..", "..", "etc", "passwd"]) == "subdir/../../etc/passwd"
  {
  }

  lemma JoinedRootedParent()
    ensures Join(["", "..", "..", "etc", "passwd"]) == "/../../etc/passwd"
  {
  }

  lemma JoinedNested()
    ensures Join(["docs", "readme.md"]) == "docs/readme.md"
  {
  }

  lemma JoinedSibling()
    ensures Join(["..", "data-evil", "x"]) == "../data-evil/x"
  {
  }

  lemma VectorSegmentsHaveNoSlash()
    ensures NoSlash(["..", "etc", "passwd"]) && NoSlash(["..", "..", "etc", "shadow"])
    ensures NoSlash(["subdir", "..", "..", "etc", "passwd"])
    ensures NoSlash(["", "..", "..", "etc", "passwd"])
    ensures NoSlash(["file.txt"]) && NoSlash(["docs", "readme.md"])
    ensures NoSlash(["..", "data-evil", "x"])
  {
  }

  // The traversal attempts of the backend's own tests are refused under the root "/data":
  // each climbs out of the root and lands on a path that does not start with "/data".

  lemma BlocksParent(root: string, requested: string)
    requires root == "/data" && requested == "../etc/passwd"
    ensures IsAbsClean(root) && SafePath(root, requested) == Err(Permission)
  {
    DataRoot(root);
    JoinedParent();
    VectorSegmentsHaveNoSlash();
    SafePathOfSegments(root, requested, ["..", "etc", "passwd"], ["etc", "passwd"]);
    NotPrefixAt(root, AbsPath(["etc", "passwd"]), 1);
  }

  lemma BlocksGrandparent(root: string, requested: string)
    requires root == "/data" && requested == "../../etc/shadow"
    ensures IsAbsClean(root) && SafePath(root, requested) == Err(Permission)
  {
    DataRoot(root);
    JoinedGrandparent();
    VectorSegmentsHaveNoSlash();
    SafePathOfSegments(root, requested, ["..", "..", "etc", "shadow"], ["etc", "shadow"]);
    NotPrefixAt(root, AbsPath(["etc", "shadow"]), 1);
  }

  lemma BlocksThroughSubdir(root: string, requested: string)
    requires root == "/data" && requested == "subdir/../../etc/passwd"
    ensures IsAbsClean(root) && SafePath(root, requested) == Err(Permission)
  {
    DataRoot(root);
    JoinedThroughSubdir();
    VectorSegmentsHaveNoSlash();
    SafePathOfSegments(root, requested, ["subdir", "..", "..", "etc", "passwd"], ["etc", "passwd"]);
    NotPrefixAt(root, AbsPath(["etc", "passwd"]), 1);
  }

  lemma BlocksRootedParent(root: string, requested: string)
    requires root == "/data" && requested == "/../../etc/passwd"
    ensures IsAbsClean(root) && SafePath(root, requested) == Err(Permission)
  {
    DataRoot(root);
    JoinedRootedParent();
    VectorSegmentsHaveNoSlash();
    SafePathOfSegments(root, requested, ["", "..", "..", "etc", "passwd"], ["etc", "passwd"]);
    NotPrefixAt(root, AbsPath(["etc", "passwd"]), 1);
  }

  // The valid requests of the backend's own tests are accepted under "/data" and resolve
  // below it ("" and "/" are covered by `SafePath`'s own contract, "/docs/readme.md" by
  // `SafePathLeadingSlash`).

  lemma AllowsFile(root: string, requested: string)
    requires root == "/data" && requested == "file.txt"
    ensures IsAbsClean(root) && SafePath(root, requested) == Ok(root + "/" + requested)
  {
    DataRoot(root);
    VectorSegmentsHaveNoSlash();
    AbsPathExtends(["data"], ["file.txt"]);
    SafePathOfSegments(root, requested, ["file.txt"], ["data", "file.txt"]);
  }

  lemma AllowsNested(root: string, requested: string)
    requires root == "/data" && requested == "docs/readme.md"
    ensures IsAbsClean(root) && SafePath(root, requested) == Ok(root + "/" + requested)
  {
    DataRoot(root);
    JoinedNested();
    VectorSegmentsHaveNoSlash();
    AbsPathExtends(["data"], ["docs", "readme.md"]);
    assert ["data"] + ["docs", "readme.md"] == ["data", "docs", "readme.md"];
    SafePathOfSegments(root, requested, ["docs", "readme.md"], ["data", "docs", "readme.md"]);
  }

  /** The prefix test is textual, not by component: a sibling directory whose name extends the
      root's name is accepted although it lies outside the root's subtree. */
  lemma SafePathSiblingEscape(root: string, requested: string)
    requires root == "/data" && requested == "../data-evil/x"
    ensures IsAbsClean(root) && SafePath(root, requested) == Ok("/data-evil/x")
    ensures !WithinRoot(root, "/data-evil/x")
  {
    DataRoot(root);
    JoinedSibling();
    VectorSegmentsHaveNoSlash();
    SafePathOfSegments(root, requested, ["..", "data-evil", "x"], ["data-evil", "x"]);
    assert AbsPath(["data-evil", "x"]) == "/data-evil/x";
    CleanOfAbsPath(["data-evil", "x"]);
    assert Components("/data-evil/x") == ["data-evil", "x"];
  }

  lemma DataRoot(root: string)
    requires root == "/data"
    ensures IsAbsClean(root) && Components(root) == ["data"]
  {
    CleanOfAbsPath(["data"]);
    assert AbsPath(["data"]) == "/data";
  }

  /** `mapError`: "does not exist" becomes `NotFound`, the two permission errors become
      `Permission`, anything else passes through. */
  function MapError(e: OsError): (r: StorageError)
    ensures r == NotFound <==> e == ENOENT
    ensures r == Permission <==> (e == EACCES || e == EPERM)
    ensures r.Other? ==> r.cause == e
  {
    if e == ENOENT then NotFound
    else if e == EACCES || e == EPERM then Permission
    else Other(e)
  }

  // ---------------------------------------------------------------------------------------
  // The five operations, as functions of the tree they run on
  // ---------------------------------------------------------------------------------------

  /** The metadata `Stat` and `List` report for the entry at `cs`: its base name, its path
      relative to the root, its size and whether it is a directory. */
  function InfoOf(root: string, cs: seq<string>, n: Node): (info: FileInfo)
    requires n.File? ==> |n.data| <= MaxInt64
    ensures cs != [] ==> info.name == cs[|cs| - 1]
    ensures info.isDir == (n == Dir)
    ensures info.size as int == if n.File? then |n.data| else 0
  {
    FileInfo(Base(cs), Rel(Components(root), cs), Size(n), n.Dir?)
  }

  /** The path a record reports for an entry inside the root's subtree: "." for the root
      itself, otherwise the components below the root joined by '/'. */
  lemma InfoOfPath(root: string, cs: seq<string>, n: Node)
    requires n.File? ==> |n.data| <= MaxInt64
    requires Components(root) <= cs
    ensures InfoOf(root, cs, n).path == if |cs| == |Components(root)| then "." else Join(cs[|Components(root)|..])
  {
    var base := Components(root);
    assert cs == base + cs[|base|..];
    RelUnder(base, cs[|base|..]);
  }

  ghost function ListSpec(root: string, fs: FS, p: string): (r: Result<seq<FileInfo>, StorageError>)
    requires IsAbsClean(root) && WellFormed(fs)
    ensures r == Err(Permission) <==> SafePath(root, p).Err?
    ensures r.Ok? ==> var dir := Components(SafePath(root, p).value);
              && dir in fs && fs[dir] == Dir
              && forall i :: 0 <= i < |r.value| ==> dir + [r.value[i].name] in fs
  {
    match SafePath(root, p)
    case Err(e) => Err(e)
    case Ok(full) =>
      var dir := Components(full);
      match ReadDir(fs, dir)
      case Err(e) => Err(MapError(e))
      case Ok(names) => ListEntries(root, fs, dir, names)
  }

  /** The loop of `List` over the listed names: each child's metadata is read in turn, and the
      first read that fails ends the listing with its mapped error. */
  ghost function ListEntries(root: string, fs: FS, dir: seq<string>, names: seq<string>)
    : (r: Result<seq<FileInfo>, StorageError>)
    requires WellFormed(fs)
    ensures r.Ok? ==> |r.value| == |names|
    ensures r.Ok? ==> forall i :: 0 <= i < |names| ==> dir + [names[i]] in fs && r.value[i].name == names[i]
    ensures r.Err? ==> r.error != Permission
    decreases |names|
  {
    if names == [] then Ok([])
    else
      var child := dir + [names[0]];
      match Lookup(fs, child)
      case Err(e) => Err(MapError(e))
      case Ok(n) =>
        match ListEntries(root, fs, dir, names[1..])
        case Err(e) => Err(e)
        case Ok(rest) =>
          assert forall i :: 1 <= i < |names| ==> names[i] == names[1..][i - 1];
          Ok([InfoOf(root, child, n)] + rest)
  }

  /** One turn of the listing loop: the record of the `i`-th name, then the rest. */
  lemma ListEntriesStep(root: string, fs: FS, dir: seq<string>, names: seq<string>, i: int)
    requires WellFormed(fs) && 0 <= i < |names|
    ensures var child := dir + [names[i]];
      ListEntries(root, fs, dir, names[i..]) ==
        if Lookup(fs, child).Err? then Err(MapError(Lookup(fs, child).error))
        else Prepended([InfoOf(root, child, Lookup(fs, child).value)], ListEntries(root, fs, dir, names[i + 1..]))
  {
    assert names[i..][0] == names[i] && names[i..][1..] == names[i + 1..];
  }

  /** `files` put in front of a listing that may have failed. */
  function Prepended(files: seq<FileInfo>, r: Result<seq<FileInfo>, StorageError>): Result<seq<FileInfo>, StorageError>
  {
    match r
    case Ok(rest) => Ok(files + rest)
    case Err(e) => Err(e)
  }

  lemma PrependedAssoc(files: seq<FileInfo>, info: FileInfo, r: Result<seq<FileInfo>, StorageError>)
    ensures Prepended(files, Prepended([info], r)) == Prepended(files + [info], r)
  {
    if r.Ok? {
      assert files + ([info] + r.value) == (files + [info]) + r.value;
    }
  }

  /** When every listed name is an entry, no metadata read fails, and the listing is the
      records of `Entries`. */
  lemma {:induction false} ListEntriesFound(root: string, fs: FS, dir: seq<string>, names: seq<string>)
    requires WellFormed(fs) && forall i :: 0 <= i < |names| ==> dir + [names[i]] in fs
    ensures ListEntries(root, fs, dir, names) == Ok(Entries(root, fs, dir, names))
    decreases |names|
  {
    if names != [] {
      var child := dir + [names[0]];
      LookupFinds(fs, child);
      assert forall i :: 0 <= i < |names[1..]| ==> names[1..][i] == names[i + 1];
      ListEntriesFound(root, fs, dir, names[1..]);
      EntriesCons(root, fs, dir, names);
    }
  }

  /** The records of a non-empty list of names: the first name's, then the others'. */
  lemma EntriesCons(root: string, fs: FS, dir: seq<string>, names: seq<string>)
    requires WellFormed(fs) && names != [] && forall i :: 0 <= i < |names| ==> dir + [names[i]] in fs
    ensures forall i :: 0 <= i < |names[1..]| ==> dir + [names[1..][i]] in fs
    ensures var child := dir + [names[0]];
      Entries(root, fs, dir, names) == [InfoOf(root, child, fs[child])] + Entries(root, fs, dir, names[1..])
  {
    TailInFs(fs, dir, names);
    var all := Entries(root, fs, dir, names);
    var tail := Entries(root, fs, dir, names[1..]);
    forall k | 0 < k < |all|
      ensures all[k] == tail[k - 1]
    {
      EntriesShift(root, fs, dir, names, k);
    }
    HeadAndTail(all, tail);
  }

  /** A sequence whose elements after the first are those of `tail` is its first element
      followed by `tail`. */
  lemma HeadAndTail<T>(all: seq<T>, tail: seq<T>)
    requires |all| == |tail| + 1
    requires forall k :: 0 < k < |all| ==> all[k] == tail[k - 1]
    ensures all == [all[0]] + tail
  {
  }

  /** The names after the first are entries of the tree too. */
  lemma TailInFs(fs: FS, dir: seq<string>, names: seq<string>)
    requires names != [] && forall i :: 0 <= i < |names| ==> dir + [names[i]] in fs
    ensures forall i :: 0 <= i < |names[1..]| ==> dir + [names[1..][i]] in fs
  {
    assert forall i :: 0 <= i < |names[1..]| ==> names[1..][i] == names[i + 1];
  }

  /** Dropping the first name shifts every later record down by one place. */
  lemma EntriesShift(root: string, fs: FS, dir: seq<string>, names: seq<string>, k: int)
    requires WellFormed(fs) && forall i :: 0 <= i < |names| ==> dir + [names[i]] in fs
    requires 0 < k < |names|
    ensures forall i :: 0 <= i < |names[1..]| ==> dir + [names[1..][i]] in fs
    ensures Entries(root, fs, dir, names)[k] == Entries(root, fs, dir, names[1..])[k - 1]
  {
    TailInFs(fs, dir, names);
    assert names[1..][k - 1] == names[k];
  }

  /** Every name a successful ReadDir lists is an entry of the tree whose size fits. */
  lemma ListedChildren(fs: FS, dir: seq<string>)
    requires WellFormed(fs) && ReadDir(fs, dir).Ok?
    ensures var names := ReadDir(fs, dir).value;
      forall j :: 0 <= j < |names| ==>
        dir + [names[j]] in fs && (fs[dir + [names[j]]].File? ==> |fs[dir + [names[j]]].data| <= MaxInt64)
  {
    ReadDirOk(fs, dir);
  }

  /** The metadata of the named children of `dir`, in the order of `names`. */
  ghost function Entries(root: string, fs: FS, dir: seq<string>, names: seq<string>): (r: seq<FileInfo>)
    requires WellFormed(fs) && forall i :: 0 <= i < |names| ==> dir + [names[i]] in fs
    ensures |r| == |names|
    ensures forall i :: 0 <= i < |names| ==> r[i] == InfoOf(root, dir + [names[i]], fs[dir + [names[i]]])
  {
    seq(|names|, i requires 0 <= i < |names| => InfoOf(root, dir + [names[i]], fs[dir + [names[i]]]))
  }

  /** `Read` hands back the opened entry; opening a directory succeeds. */
  ghost function ReadSpec(root: string, fs: FS, p: string): (r: Result<Node, StorageError>)
    requires IsAbsClean(root)
    ensures r == Err(Permission) <==> SafePath(root, p).Err?
    ensures r.Ok? ==> var cs := Components(SafePath(root, p).value); cs in fs && r.value == fs[cs]
    ensures r == Err(NotFound) ==> Components(SafePath(root, p).value) !in fs
  {
    match SafePath(root, p)
    case Err(e) => Err(e)
    case Ok(full) =>
      match Lookup(fs, Components(full))
      case Err(e) => Err(MapError(e))
      case Ok(n) => Ok(n)
  }

  ghost function StatSpec(root: string, fs: FS, p: string): (r: Result<FileInfo, StorageError>)
    requires IsAbsClean(root) && WellFormed(fs)
    ensures r == Err(Permission) <==> SafePath(root, p).Err?
    ensures r.Ok? ==> var cs := Components(SafePath(root, p).value);
              cs in fs && r.value == InfoOf(root, cs, fs[cs])
    ensures r == Err(NotFound) ==> Components(SafePath(root, p).value) !in fs
  {
    match SafePath(root, p)
    case Err(e) => Err(e)
    case Ok(full) =>
      var cs := Components(full);
      match Lookup(fs, cs)
      case Err(e) => Err(MapError(e))
      case Ok(n) =>
        LookupFinds(fs, cs);
        Ok(InfoOf(root, cs, n))
  }

  /** `Write`: the outcome and the tree afterwards. */
  ghost function WriteSpec(root: string, fs: FS, p: string, data: seq<byte>): (r: (Result<(), StorageError>, FS))
    requires IsAbsClean(root) && WellFormed(fs)
    ensures SafePath(root, p).Err? ==> r == (Err(Permission), fs)
    ensures r.0.Ok? ==> var cs := Components(SafePath(root, p).value); cs in r.1 && r.1[cs] == File(data)
    ensures r.0.Err? ==> r.0.error != NotFound
  {
    match SafePath(root, p)
    case Err(e) => (Err(e), fs)
    case Ok(full) => WriteAt(fs, Components(full), data)
  }

  /** Writing the resolved entry `cs`: the parent directories are made first (and stay made if
      creating the file then fails), then the file is created or truncated and filled. */
  ghost function WriteAt(fs: FS, cs: seq<string>, data: seq<byte>): (r: (Result<(), StorageError>, FS))
    requires WellFormed(fs)
    ensures forall k :: k in fs && k != cs ==> k in r.1 && r.1[k] == fs[k]
    ensures r.0.Ok? ==> cs in r.1 && r.1[cs] == File(data)
    ensures r.0.Err? ==> r.0.error.Other?
  {
    var (fs1, made) := MkdirAll(fs, Parent(cs));
    if made.Err? then (Err(MapError(made.error)), fs1)
    else
      match Create(fs1, cs, data)
      case Err(e) => (Err(MapError(e)), fs1)
      case Ok(fs2) => (Ok(()), fs2)
  }

  ghost function DeleteSpec(root: string, fs: FS, p: string): (r: (Result<(), StorageError>, FS))
    requires IsAbsClean(root)
    ensures r.0 == Err(Permission) <==> SafePath(root, p).Err?
    ensures r.0.Err? ==> r.1 == fs
    ensures r.0.Ok? ==> var cs := Components(SafePath(root, p).value); cs in fs && r.1 == fs - {cs}
    ensures r.0 == Err(NotFound) ==> Components(SafePath(root, p).value) !in fs
  {
    match SafePath(root, p)
    case Err(e) => (Err(e), fs)
    case Ok(full) =>
      match Remove(fs, Components(full))
      case Err(e) => (Err(MapError(e)), fs)
      case Ok(fs1) => (Ok(()), fs1)
  }

  // ---------------------------------------------------------------------------------------
  // The backend object
  // ---------------------------------------------------------------------------------------

  /** A local backend: the absolute root it was created with, and the tree it works on. */
  class LocalStorage {
    const root: string
    var fs: FS

    ghost predicate Valid()
      reads this
    {
      IsAbsClean(root) && WellFormed(fs)
    }

    constructor (root: string, fs: FS)
      requires IsAbsClean(root) && WellFormed(fs)
      ensures Valid() && this.root == root && this.fs == fs
    {
      this.root := root;
      this.fs := fs;
    }

    /** `New`, from the already absolute root: makes the root directory (and its ancestors) and
        fails with the system's error when that fails. */
    static method New(abs: string, tree: FS) returns (r: Result<LocalStorage, OsError>)
      requires IsAbsClean(abs) && WellFormed(tree)
      ensures var (fs1, made) := MkdirAll(tree, Components(abs));
        && (r.Err? <==> made.Err?)
        && (r.Err? ==> r.error == made.error)
        && (r.Ok? ==> fresh(r.value) && r.value.Valid() && r.value.root == abs
                      && r.value.fs == fs1 && Components(abs) in fs1 && fs1[Components(abs)] == Dir)
    {
      AbsCleanComponents(abs);
      MkdirAllSpec(tree, Components(abs));
      var (fs1, made) := MkdirAll(tree, Components(abs));
      if made.Err? {
        return Err(made.error);
      }
      assert Components(abs)[..|Components(abs)|] == Components(abs);
      var s := new LocalStorage(abs, fs1);
      return Ok(s);
    }

    method List(p: string) returns (r: Result<seq<FileInfo>, StorageError>)
      requires Valid()
      ensures r == ListSpec(root, fs, p)
    {
      var tree := fs;
      var sp := SafePath(root, p);
      if sp.Err? {
        return Err(sp.error);
      }
      var dir := Components(sp.value);
      var entries := ReadDir(tree, dir);
      if entries.Err? {
        return Err(MapError(entries.error));
      }
      var names := entries.value;
      var files: seq<FileInfo> := [];
      var i := 0;
      assert names[0..] == names;
      ghost var all := ListEntries(root, tree, dir, names);
      assert all.Ok? ==> [] + all.value == all.value;
      while i < |names|
        invariant 0 <= i <= |names|
        invariant ListEntries(root, tree, dir, names) == Prepended(files, ListEntries(root, tree, dir, names[i..]))
      {
        var child := dir + [names[i]];
        ListEntriesStep(root, tree, dir, names, i);
        var found := Lookup(tree, child);
        if found.Err? {
          return Err(MapError(found.error));
        }
        var info := InfoOf(root, child, found.value);
        PrependedAssoc(files, info, ListEntries(root, tree, dir, names[i + 1..]));
        files := files + [info];
        i := i + 1;
      }
      assert files + [] == files;
      return Ok(files);
    }

    method Read(p: string) returns (r: Result<Node, StorageError>)
      requires Valid()
      ensures r == ReadSpec(root, fs, p)
    {
      var sp := SafePath(root, p);
      if sp.Err? {
        return Err(sp.error);
      }
      var handle := Lookup(fs, Components(sp.value));
      if handle.Err? {
        return Err(MapError(handle.error));
      }
      return Ok(handle.value);
    }

    method Write(p: string, data: seq<byte>) returns (r: Result<(), StorageError>)
      requires Valid() && |data| <= MaxInt64
      modifies this
      ensures Valid()
      ensures (r, fs) == WriteSpec(root, old(fs), p, data)
    {
      var sp := SafePath(root, p);
      if sp.Err? {
        return Err(sp.error);
      }
      var cs := Components(sp.value);
      AbsCleanComponents(sp.value);
      WriteAtSpec(fs, cs, data);
      var (fs1, made) := MkdirAll(fs, Parent(cs));
      fs := fs1;
      if made.Err? {
        return Err(MapError(made.error));
      }
      var created := Create(fs, cs, data);
      if created.Err? {
        return Err(MapError(created.error));
      }
      fs := created.value;
      return Ok(());
    }

    method Delete(p: string) returns (r: Result<(), StorageError>)
      requires Valid()
      modifies this
      ensures Valid()
      ensures (r, fs) == DeleteSpec(root, old(fs), p)
    {
      var sp := SafePath(root, p);
      if sp.Err? {
        return Err(sp.error);
      }
      var cs := Components(sp.value);
      var removed := Remove(fs, cs);
      if removed.Err? {
        return Err(MapError(removed.error));
      }
      RemoveKeepsWellFormed(fs, cs);
      fs := removed.value;
      return Ok(());
    }

    method Stat(p: string) returns (r: Result<FileInfo, StorageError>)
      requires Valid()
      ensures r == StatSpec(root, fs, p)
    {
      var sp := SafePath(root, p);
      if sp.Err? {
        return Err(sp.error);
      }
      var cs := Components(sp.value);
      var found := Lookup(fs, cs);
      if found.Err? {
        return Err(MapError(found.error));
      }
      LookupFinds(fs, cs);
      return Ok(InfoOf(root, cs, found.value));
    }
  }

  // ---------------------------------------------------------------------------------------
  // What the operations promise
  // ---------------------------------------------------------------------------------------

  /** Writing an entry of proper names: the tree stays well formed whether or not it succeeds,
      no entry but the target changes, only the target and directories on the way to it are
      added; it succeeds exactly when no name holds a NUL, no proper ancestor is a file and the
      target is not a directory, and then the target holds `data`. A failure is always a
      system error, never `NotFound` or `Permission`. */
  lemma WriteAtSpec(fs: FS, cs: seq<string>, data: seq<byte>)
    requires WellFormed(fs) && |data| <= MaxInt64
    requires forall i :: 0 <= i < |cs| ==> IsName(cs[i])
    ensures var (r, fs1) := WriteAt(fs, cs, data);
      && WellFormed(fs1)
      && (forall k :: k in fs && k != cs ==> k in fs1 && fs1[k] == fs[k])
      && (forall k :: k in fs1 && k !in fs ==> k <= cs)
      && (r.Ok? <==> !HasNul(cs) && !FileOnWay(fs, Parent(cs)) && !(cs in fs && fs[cs] == Dir))
      && (r.Ok? ==> cs in fs1 && fs1[cs] == File(data))
      && (r.Err? ==> r.error.Other?)
  {
    var q := Parent(cs);
    forall i | 0 <= i < |q|
      ensures IsName(q[i])
    {
      assert q[i] == cs[i];
    }
    MkdirAllSpec(fs, q);
    var (fs1, made) := MkdirAll(fs, q);
    if made.Ok? {
      WriteAfterMkdir(fs, fs1, cs, data);
    } else {
      NulOfParentDirs(cs);
      ParentPrefixIsPrefix(cs);
    }
  }

  lemma ParentPrefixIsPrefix(cs: seq<string>)
    ensures Parent(cs) <= cs
  {
  }

  lemma NulOfParentDirs(cs: seq<string>)
    ensures HasNul(Parent(cs)) ==> HasNul(cs)
  {
    if cs != [] {
      NulOfParent(cs);
    }
  }

  /** The Create step of a write, once the parent directories are in place. */
  lemma WriteAfterMkdir(fs: FS, fs1: FS, cs: seq<string>, data: seq<byte>)
    requires WellFormed(fs) && |data| <= MaxInt64
    requires forall i :: 0 <= i < |cs| ==> IsName(cs[i])
    requires MkdirAll(fs, Parent(cs)) == (fs1, Ok(()))
    requires WellFormed(fs1)
    requires forall k :: k in fs ==> k in fs1 && fs1[k] == fs[k]
    requires forall k :: k in fs1 && k !in fs ==> k <= Parent(cs) && fs1[k] == Dir
    requires !HasNul(Parent(cs)) && !FileOnWay(fs, Parent(cs))
    requires forall i :: 0 <= i <= |Parent(cs)| ==> Parent(cs)[..i] in fs1 && fs1[Parent(cs)[..i]] == Dir
    ensures var (r, fs2) := WriteAt(fs, cs, data);
      && WellFormed(fs2)
      && (forall k :: k in fs && k != cs ==> k in fs2 && fs2[k] == fs[k])
      && (forall k :: k in fs2 && k !in fs ==> k <= cs)
      && (r.Ok? <==> !HasNul(cs) && !(cs in fs && fs[cs] == Dir))
      && (r.Ok? ==> cs in fs2 && fs2[cs] == File(data))
      && (r.Err? ==> r.error.Other?)
  {
    var q := Parent(cs);
    assert q[..|q|] == q;
    ParentPrefixIsPrefix(cs);
    if cs == [] {
      LookupFinds(fs1, cs);
      assert Create(fs1, cs, data) == Err(EISDIR);
    } else {
      assert cs in fs1 && fs1[cs] == Dir <==> cs in fs && fs[cs] == Dir;
      CreateSpec(fs1, cs, data);
    }
  }

  /** Write keeps the tree well formed, whether it succeeds or not, changes no entry but the
      target, and adds only entries on the way to it. */
  lemma WriteKeepsWellFormed(root: string, fs: FS, p: string, data: seq<byte>)
    requires IsAbsClean(root) && WellFormed(fs) && |data| <= MaxInt64
    ensures var fs1 := WriteSpec(root, fs, p, data).1;
      && WellFormed(fs1)
      && (forall k :: k in fs && (SafePath(root, p).Err? || k != Components(SafePath(root, p).value))
                 ==> k in fs1 && fs1[k] == fs[k])
      && (forall k :: k in fs1 && k !in fs ==> SafePath(root, p).Ok? && k <= Components(SafePath(root, p).value))
  {
    if SafePath(root, p).Ok? {
      AbsCleanComponents(SafePath(root, p).value);
      WriteAtSpec(fs, Components(SafePath(root, p).value), data);
    }
  }

  /** What was written reads back: `Read` opens a file holding `data`, and `Stat` reports a file
      of that many bytes. */
  lemma WriteThenRead(root: string, fs: FS, p: string, data: seq<byte>)
    requires IsAbsClean(root) && WellFormed(fs) && |data| <= MaxInt64
    requires WriteSpec(root, fs, p, data).0.Ok?
    ensures var fs1 := WriteSpec(root, fs, p, data).1;
      && WellFormed(fs1)
      && ReadSpec(root, fs1, p) == Ok(File(data))
      && StatSpec(root, fs1, p).Ok?
      && StatSpec(root, fs1, p).value.size as int == |data|
      && !StatSpec(root, fs1, p).value.isDir
  {
    var cs := Components(SafePath(root, p).value);
    AbsCleanComponents(SafePath(root, p).value);
    WriteAtSpec(fs, cs, data);
    LookupFinds(WriteSpec(root, fs, p, data).1, cs);
  }

  /** When `Write` succeeds: the request is accepted, and at the resolved entry no name holds a
      NUL, no proper ancestor is a file and the entry is not a directory. */
  lemma WriteOutcome(root: string, fs: FS, p: string, data: seq<byte>)
    requires IsAbsClean(root) && WellFormed(fs) && |data| <= MaxInt64
    ensures WriteSpec(root, fs, p, data).0.Ok? <==>
              && SafePath(root, p).Ok?
              && var cs := Components(SafePath(root, p).value);
                 !HasNul(cs) && !FileOnWay(fs, Parent(cs)) && !(cs in fs && fs[cs] == Dir)
    ensures WriteSpec(root, fs, p, data).0.Err? ==> WriteSpec(root, fs, p, data).0.error != NotFound
  {
    if SafePath(root, p).Ok? {
      AbsCleanComponents(SafePath(root, p).value);
      WriteAtSpec(fs, Components(SafePath(root, p).value), data);
    }
  }

  /** A successful `Delete` takes out exactly the resolved entry; reading or stating it
      afterwards is `NotFound`. */
  lemma DeleteThenStat(root: string, fs: FS, p: string)
    requires IsAbsClean(root) && WellFormed(fs)
    requires DeleteSpec(root, fs, p).0.Ok?
    ensures var cs := Components(SafePath(root, p).value);
      var fs1 := DeleteSpec(root, fs, p).1;
      && fs1 == fs - {cs}
      && WellFormed(fs1)
      && ReadSpec(root, fs1, p) == Err(NotFound)
      && StatSpec(root, fs1, p) == Err(NotFound)
  {
    var cs := Components(SafePath(root, p).value);
    RemoveKeepsWellFormed(fs, cs);
    LookupFinds(fs, cs);
    var fs1 := fs - {cs};
    assert cs != [] && cs in fs;
    assert !HasNul(cs);
    LookupMissing(fs1, cs);
  }

  /** When `Delete` succeeds: the request is accepted, and the resolved entry exists and is a
      file or an empty directory other than "/". */
  lemma DeleteOutcome(root: string, fs: FS, p: string)
    requires IsAbsClean(root) && WellFormed(fs)
    ensures DeleteSpec(root, fs, p).0.Ok? <==>
              && SafePath(root, p).Ok?
              && var cs := Components(SafePath(root, p).value);
                 && cs in fs
                 && (fs[cs].File? || (cs != [] && forall n :: cs + [n] !in fs))
  {
    if SafePath(root, p).Ok? {
      var cs := Components(SafePath(root, p).value);
      RemoveSpec(fs, cs);
    }
  }

  /** Asking for "" or "/" is asking for the root itself, so deleting it removes an empty root
      directory (unless the root is "/", which is busy). */
  lemma DeleteEmptyRoot(root: string, fs: FS)
    requires IsAbsClean(root) && WellFormed(fs) && root != "/"
    requires Components(root) in fs && fs[Components(root)] == Dir
    requires forall n :: Components(root) + [n] !in fs
    ensures DeleteSpec(root, fs, "") == (Ok(()), fs - {Components(root)})
  {
    AbsCleanComponents(root);
    assert Components(root) != [];
    RemoveSpec(fs, Components(root));
  }

  /** An existing entry under an accepted request: `Read` opens it (a directory included) and
      `Stat` reports its metadata. */
  lemma ReadExisting(root: string, fs: FS, p: string)
    requires IsAbsClean(root) && WellFormed(fs) && SafePath(root, p).Ok?
    requires Components(SafePath(root, p).value) in fs
    ensures var cs := Components(SafePath(root, p).value);
      && ReadSpec(root, fs, p) == Ok(fs[cs])
      && StatSpec(root, fs, p) == Ok(InfoOf(root, cs, fs[cs]))
  {
    LookupFinds(fs, Components(SafePath(root, p).value));
  }

  /** An absent entry (without NUL) with no file on the way to it, whether its directory exists
      or not: `Read`, `Stat`, `List` and `Delete` all report `NotFound`. */
  lemma MissingIsNotFound(root: string, fs: FS, p: string)
    requires IsAbsClean(root) && WellFormed(fs) && SafePath(root, p).Ok?
    requires var cs := Components(SafePath(root, p).value);
      cs !in fs && !FileOnWay(fs, Parent(cs)) && !HasNul(cs)
    ensures ReadSpec(root, fs, p) == Err(NotFound)
    ensures StatSpec(root, fs, p) == Err(NotFound)
    ensures ListSpec(root, fs, p) == Err(NotFound)
    ensures DeleteSpec(root, fs, p) == (Err(NotFound), fs)
  {
    var cs := Components(SafePath(root, p).value);
    LookupAbsent(fs, cs);
  }

  /** Listing a directory: one entry per child, named after it, sorted by name, and each entry
      the child's metadata. */
  lemma ListOfDir(root: string, fs: FS, p: string)
    requires IsAbsClean(root) && WellFormed(fs) && SafePath(root, p).Ok?
    requires var dir := Components(SafePath(root, p).value); dir in fs && fs[dir] == Dir
    ensures ListSpec(root, fs, p).Ok?
    ensures var dir := Components(SafePath(root, p).value);
      var files := ListSpec(root, fs, p).value;
      && (forall name :: (exists j :: 0 <= j < |files| && files[j].name == name) <==> dir + [name] in fs)
      && (forall i, j :: 0 <= i < j < |files| ==> Less(files[i].name, files[j].name))
      && (forall j :: 0 <= j < |files| ==>
            files[j] == InfoOf(root, dir + [files[j].name], fs[dir + [files[j].name]]))
      && (Components(root) <= dir ==> forall j :: 0 <= j < |files| ==>
            files[j].path == Join(dir[|Components(root)|..] + [files[j].name]))
  {
    var dir := Components(SafePath(root, p).value);
    ReadDirLists(fs, dir);
    var names := ReadDir(fs, dir).value;
    ListedChildren(fs, dir);
    ListEntriesFound(root, fs, dir, names);
    assert ListSpec(root, fs, p) == Ok(Entries(root, fs, dir, names));
    EntriesOfListing(root, fs, dir, names);
    var files := ListSpec(root, fs, p).value;
    if Components(root) <= dir {
      forall j | 0 <= j < |files|
        ensures files[j].path == Join(dir[|Components(root)|..] + [files[j].name])
      {
        ChildPath(root, dir, files[j].name, fs[dir + [files[j].name]]);
      }
    }
  }

  /** A child of a directory inside the root's subtree is reported at the directory's path
      below the root followed by the child's name. */
  lemma ChildPath(root: string, dir: seq<string>, name: string, n: Node)
    requires n.File? ==> |n.data| <= MaxInt64
    requires Components(root) <= dir
    ensures InfoOf(root, dir + [name], n).path == Join(dir[|Components(root)|..] + [name])
  {
    var base := Components(root);
    InfoOfPath(root, dir + [name], n);
    assert (dir + [name])[|base|..] == dir[|base|..] + [name];
  }

  /** The entries built from a sorted listing of a directory's children. */
  lemma EntriesOfListing(root: string, fs: FS, dir: seq<string>, names: seq<string>)
    requires WellFormed(fs)
    requires StrictlySorted(names)
    requires forall name :: name in names <==> dir + [name] in fs
    ensures forall i :: 0 <= i < |names| ==> dir + [names[i]] in fs
    ensures var files := Entries(root, fs, dir, names);
      && (forall name :: (exists j :: 0 <= j < |files| && files[j].name == name) <==> dir + [name] in fs)
      && (forall i, j :: 0 <= i < j < |files| ==> Less(files[i].name, files[j].name))
      && (forall j :: 0 <= j < |files| ==>
            files[j] == InfoOf(root, dir + [files[j].name], fs[dir + [files[j].name]]))
  {
    assert forall i :: 0 <= i < |names| ==> dir + [names[i]] in fs;
    var files := Entries(root, fs, dir, names);
    assert forall j :: 0 <= j < |files| ==> files[j].name == names[j];
    forall name
      ensures (exists j :: 0 <= j < |files| && files[j].name == name) <==> dir + [name] in fs
    {
      if dir + [name] in fs {
        var j :| 0 <= j < |names| && names[j] == name;
        assert files[j].name == name;
      }
    }
  }

  /** Listing a file is refused with ENOTDIR. */
  lemma ListOfFile(root: string, fs: FS, p: string)
    requires IsAbsClean(root) && WellFormed(fs) && SafePath(root, p).Ok?
    requires var cs := Components(SafePath(root, p).value); cs in fs && fs[cs].File?
    ensures ListSpec(root, fs, p) == Err(Other(ENOTDIR))
  {
    LookupFinds(fs, Components(SafePath(root, p).value));
  }

  /** For an entry inside the root's subtree, `Stat` reports the path below the root: the
      remaining components joined by '/', or "." for the root itself. */
  lemma StatRelativePath(root: string, fs: FS, p: string, rest: seq<string>)
    requires IsAbsClean(root) && WellFormed(fs)
    requires StatSpec(root, fs, p).Ok?
    requires Components(SafePath(root, p).value) == Components(root) + rest
    ensures StatSpec(root, fs, p).value.path == if rest == [] then "." else Join(rest)
  {
    RelUnder(Components(root), rest);
  }
}
