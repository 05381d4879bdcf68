/** The part of the operating system the local backend talks to: a tree of files and directories
    addressed by the component list of a clean absolute path, and the `os` calls
    Stat/Open, ReadDir, MkdirAll, Create and Remove with the error numbers Linux gives them. */
module Os {
  import opened Common
  import opened PathLex
  import opened StrOrder

  datatype OsError = ENOENT | EACCES | EPERM | ENOTDIR | EISDIR | ENOTEMPTY | EBUSY | EINVAL

  datatype Node = File(data: seq<byte>) | Dir

  /** `["a", "b"]` is the entry at "/a/b"; `[]` is "/". */
  type FS = map<seq<string>, Node>

  /** A real tree: the root is a directory, every other entry sits in a directory, names are
      proper names without NUL, and a file's length fits `int64`. */
  ghost predicate WellFormed(fs: FS)
  {
    && [] in fs && fs[[]] == Dir
    && (forall k :: k in fs && k != [] ==> Parent(k) in fs && fs[Parent(k)] == Dir)
    && (forall k, i :: k in fs && 0 <= i < |k| ==> IsName(k[i]) && '\0' !in k[i])
    && (forall k :: k in fs && fs[k].File? ==> |fs[k].data| <= MaxInt64)
  }

  /** `filepath.Dir` on component lists. */
  function Parent(cs: seq<string>): seq<string>
  {
    if cs == [] then [] else cs[..|cs| - 1]
  }

  /** Go refuses a path holding a NUL byte before making the system call. */
  predicate HasNul(cs: seq<string>)
  {
    exists i :: 0 <= i < |cs| && '\0' in cs[i]
  }

  /** Some proper ancestor of `cs` is a file, so resolution stops there. */
  predicate FileAbove(fs: FS, cs: seq<string>)
  {
    exists i :: 0 <= i < |cs| && cs[..i] in fs && fs[cs[..i]].File?
  }

  /** Path resolution, as `os.Stat` and `os.Open` perform it (opening a directory succeeds). */
  function Lookup(fs: FS, cs: seq<string>): (r: Result<Node, OsError>)
    ensures r.Ok? ==> cs in fs && r.value == fs[cs]
    ensures r.Err? ==> cs !in fs || HasNul(cs) || FileAbove(fs, cs)
    ensures r.Err? ==> r.error in {EINVAL, ENOTDIR, ENOENT}
    ensures r == Err(ENOENT) ==> cs !in fs && !HasNul(cs)
  {
    if HasNul(cs) then Err(EINVAL)
    else if FileAbove(fs, cs) then Err(ENOTDIR)
    else if cs in fs then Ok(fs[cs])
    else Err(ENOENT)
  }

  /** The names directly inside `d`. */
  function Children(fs: FS, d: seq<string>): set<string>
  {
    set k | k in fs.Keys && |k| == |d| + 1 && k[..|d|] == d :: k[|d|]
  }

  /** `os.ReadDir`: the entry names of a directory, sorted by name. */
  function ReadDir(fs: FS, d: seq<string>): (r: Result<seq<string>, OsError>)
    ensures r.Ok? ==> d in fs && fs[d] == Dir && StrictlySorted(r.value)
    ensures r.Ok? ==> forall name :: name in r.value <==> d + [name] in fs
    ensures r.Err? ==> (d in fs && fs[d].File?) || Lookup(fs, d) == Err(r.error)
    ensures r.Err? ==> r.error in {EINVAL, ENOTDIR, ENOENT}
  {
    match Lookup(fs, d)
    case Err(e) => Err(e)
    case Ok(File(_)) => Err(ENOTDIR)
    case Ok(Dir) =>
      ChildrenIff(fs, d);
      Ok(SortSet(Children(fs, d)))
  }

  /** `os.MkdirAll`: returns the tree afterwards (ancestors made before a failure stay) and the
      outcome. An existing directory is success; an existing file is ENOTDIR; otherwise the
      parent is made first and then `d` itself. */
  function MkdirAll(fs: FS, d: seq<string>): (r: (FS, Result<(), OsError>))
    requires WellFormed(fs)
    ensures forall k :: k in fs ==> k in r.0 && r.0[k] == fs[k]
    ensures forall k :: k in r.0 && k !in fs ==> k <= d && r.0[k] == Dir
    ensures r.1.Ok? ==> d in r.0 && r.0[d] == Dir
    ensures r.1.Err? ==> r.1.error in {ENOTDIR, EINVAL}
    decreases |d|
  {
    match Lookup(fs, d)
    case Ok(Dir) => (fs, Ok(()))
    case Ok(File(_)) => (fs, Err(ENOTDIR))
    case Err(_) =>
      if d == [] then (fs, Ok(()))
      else
        LookupFinds(fs, d);
        assert Parent(d) <= d;
        var (fs1, r1) := MkdirAll(fs, Parent(d));
        if r1.Err? then (fs1, r1)
        else if HasNul(d) then (fs1, Err(EINVAL))
        else (fs1[d := Dir], Ok(()))
  }

  /** `os.Create`: truncates an existing file or makes a new one in an existing directory; the
      bytes copied into it afterwards are `data`. */
  function Create(fs: FS, cs: seq<string>, data: seq<byte>): (r: Result<FS, OsError>)
    ensures r.Ok? ==> r.value == fs[cs := File(data)] && !HasNul(cs) && !(cs in fs && fs[cs] == Dir)
    ensures r.Err? ==> r.error in {EISDIR, EINVAL, ENOTDIR, ENOENT}
    ensures r == Err(ENOENT) ==> cs !in fs && (cs == [] || Parent(cs) !in fs || fs[Parent(cs)] != Dir)
  {
    match Lookup(fs, cs)
    case Ok(Dir) => Err(EISDIR)
    case Ok(File(_)) => Ok(fs[cs := File(data)])
    case Err(e) =>
      if e == ENOENT && cs != [] && Parent(cs) in fs && fs[Parent(cs)] == Dir
      then Ok(fs[cs := File(data)])
      else Err(e)
  }

  /** `os.Remove`: unlinks a file or removes an empty directory; "/" is busy. */
  function Remove(fs: FS, cs: seq<string>): (r: Result<FS, OsError>)
    ensures r.Ok? ==> cs in fs && r.value == fs - {cs}
    ensures r.Ok? && fs[cs] == Dir ==> cs != [] && forall n :: cs + [n] !in fs
    ensures r.Err? ==> r.error in {EINVAL, ENOTDIR, ENOENT, EBUSY, ENOTEMPTY}
    ensures r == Err(ENOENT) ==> cs !in fs
  {
    match Lookup(fs, cs)
    case Err(e) => Err(e)
    case Ok(File(_)) => Ok(fs - {cs})
    case Ok(Dir) =>
      if cs == [] then Err(EBUSY)
      else if Children(fs, cs) != {} then Err(ENOTEMPTY)
      else
        ChildrenIff(fs, cs);
        Ok(fs - {cs})
  }

  /** `FileInfo.Size()`: a file's length; directories are reported as 0. */
  function Size(n: Node): int64
    requires n.File? ==> |n.data| <= MaxInt64
  {
    if n.File? then |n.data| as int64 else 0
  }

  // ---------------------------------------------------------------------------------------
  // Properties of the calls on a well-formed tree

  lemma ParentPrefix(k: seq<string>)
    requires k != []
    ensures Parent(k) == k[..|k| - 1] && |Parent(k)| == |k| - 1
  {
  }

  /** In a well-formed tree every ancestor of an entry is a directory. */
  lemma {:induction false} AncestorsAreDirs(fs: FS, k: seq<string>, i: nat)
    requires WellFormed(fs) && k in fs && i < |k|
    ensures k[..i] in fs && fs[k[..i]] == Dir
    decreases |k|
  {
    assert Parent(k) == k[..|k| - 1];
    if i < |k| - 1 {
      AncestorsAreDirs(fs, Parent(k), i);
      assert Parent(k)[..i] == k[..i];
    }
  }

  /** Lookup on a well-formed tree finds exactly the entries it holds. */
  lemma LookupFinds(fs: FS, cs: seq<string>)
    requires WellFormed(fs)
    ensures Lookup(fs, cs).Ok? <==> cs in fs
    ensures cs in fs ==> Lookup(fs, cs) == Ok(fs[cs])
  {
    if cs in fs {
      assert !HasNul(cs);
      forall i | 0 <= i < |cs|
        ensures cs[..i] in fs && fs[cs[..i]] == Dir
      {
        AncestorsAreDirs(fs, cs, i);
      }
    }
  }

  lemma ChildKey(fs: FS, d: seq<string>, name: string)
    requires name in Children(fs, d)
    ensures d + [name] in fs
  {
    var k :| k in fs.Keys && |k| == |d| + 1 && k[..|d|] == d && k[|d|] == name;
    assert k == d + [name];
  }

  lemma ChildKeyBack(fs: FS, d: seq<string>, name: string)
    requires d + [name] in fs
    ensures name in Children(fs, d)
  {
    var k := d + [name];
    assert k[..|d|] == d && k[|d|] == name;
  }

  lemma ChildrenIff(fs: FS, d: seq<string>)
    ensures forall name :: name in Children(fs, d) <==> d + [name] in fs
  {
    forall name
      ensures name in Children(fs, d) <==> d + [name] in fs
    {
      if name in Children(fs, d) {
        ChildKey(fs, d, name);
      }
      if d + [name] in fs {
        ChildKeyBack(fs, d, name);
      }
    }
  }

  /** ReadDir of a directory lists every child once, in increasing order, and nothing else. */
  lemma ReadDirLists(fs: FS, d: seq<string>)
    requires WellFormed(fs) && d in fs && fs[d] == Dir
    ensures ReadDir(fs, d).Ok?
    ensures StrictlySorted(ReadDir(fs, d).value)
    ensures forall name :: name in ReadDir(fs, d).value <==> d + [name] in fs
  {
    LookupFinds(fs, d);
    ChildrenIff(fs, d);
  }

  /** A successful ReadDir was of a directory, and lists its children in increasing order. */
  lemma ReadDirOk(fs: FS, d: seq<string>)
    requires WellFormed(fs) && ReadDir(fs, d).Ok?
    ensures d in fs && fs[d] == Dir
    ensures StrictlySorted(ReadDir(fs, d).value)
    ensures forall name :: name in ReadDir(fs, d).value <==> d + [name] in fs
  {
    LookupFinds(fs, d);
    ReadDirLists(fs, d);
  }

  /** Lookup of an absent path whose parent is a directory is ENOENT, unless it has a NUL. */
  lemma LookupMissing(fs: FS, cs: seq<string>)
    requires WellFormed(fs) && cs != [] && cs !in fs && Parent(cs) in fs && fs[Parent(cs)] == Dir
    ensures Lookup(fs, cs) == if HasNul(cs) then Err(EINVAL) else Err(ENOENT)
  {
    var p := Parent(cs);
    forall i | 0 <= i < |cs|
      ensures !(cs[..i] in fs && fs[cs[..i]].File?)
    {
      if i < |p| {
        assert cs[..i] == p[..i];
        AncestorsAreDirs(fs, p, i);
      } else {
        assert cs[..i] == p;
      }
    }
  }

  /** Lookup of an absent path with no file on the way to it is ENOENT, unless it has a NUL:
      missing ancestors are reported as a missing path too. */
  lemma LookupAbsent(fs: FS, cs: seq<string>)
    requires cs !in fs && !FileOnWay(fs, Parent(cs))
    ensures Lookup(fs, cs) == if HasNul(cs) then Err(EINVAL) else Err(ENOENT)
  {
    forall i | 0 <= i < |cs|
      ensures !(cs[..i] in fs && fs[cs[..i]].File?)
    {
      assert cs[..i] == Parent(cs)[..i];
    }
  }

  /** The listing is the one sorted sequence of the directory's names. */
  lemma ReadDirUnique(fs: FS, d: seq<string>, names: seq<string>)
    requires WellFormed(fs) && d in fs && fs[d] == Dir
    requires StrictlySorted(names)
    requires forall name :: name in names <==> d + [name] in fs
    ensures ReadDir(fs, d) == Ok(names)
  {
    ReadDirLists(fs, d);
    SortedUnique(ReadDir(fs, d).value, names);
  }

  /** Some prefix of `d`, `d` itself included, is a file. */
  ghost predicate FileOnWay(fs: FS, d: seq<string>)
  {
    exists i :: 0 <= i <= |d| && d[..i] in fs && fs[d[..i]].File?
  }

  /** MkdirAll on a well-formed tree: it never removes or changes an entry, it adds only
      directories on the way to `d`, the tree stays well formed, it succeeds exactly when no
      prefix of `d` is a file and `d` has no NUL, and on success every prefix of `d` is a
      directory. */
  lemma {:induction false} MkdirAllSpec(fs: FS, d: seq<string>)
    requires WellFormed(fs)
    requires forall i :: 0 <= i < |d| ==> IsName(d[i])
    ensures var (fs1, r) := MkdirAll(fs, d);
      && WellFormed(fs1)
      && (forall k :: k in fs ==> k in fs1 && fs1[k] == fs[k])
      && (forall k :: k in fs1 && k !in fs ==> k <= d && fs1[k] == Dir)
      && (r.Ok? <==> !HasNul(d) && !FileOnWay(fs, d))
      && (r.Ok? ==> forall i :: 0 <= i <= |d| ==> d[..i] in fs1 && fs1[d[..i]] == Dir)
    decreases |d|
  {
    if d in fs {
      MkdirAllExisting(fs, d);
    } else {
      var p := Parent(d);
      forall i | 0 <= i < |p|
        ensures IsName(p[i])
      {
        assert p[i] == d[i];
      }
      MkdirAllSpec(fs, p);
      MkdirAllMissing(fs, d);
    }
  }

  /** MkdirAll of an existing entry changes nothing: a directory is success, a file ENOTDIR. */
  lemma MkdirAllExisting(fs: FS, d: seq<string>)
    requires WellFormed(fs) && d in fs
    ensures MkdirAll(fs, d) == (fs, if fs[d] == Dir then Ok(()) else Err(ENOTDIR))
    ensures fs[d] == Dir <==> !HasNul(d) && !FileOnWay(fs, d)
    ensures fs[d] == Dir ==> forall i :: 0 <= i <= |d| ==> d[..i] in fs && fs[d[..i]] == Dir
  {
    LookupFinds(fs, d);
    forall i | 0 <= i < |d|
      ensures d[..i] in fs && fs[d[..i]] == Dir
    {
      AncestorsAreDirs(fs, d, i);
    }
    assert d[..|d|] == d;
    if fs[d].File? {
      assert FileOnWay(fs, d);
    }
  }

  /** The step of MkdirAll for a missing entry, given what the call on the parent does. */
  lemma MkdirAllMissing(fs: FS, d: seq<string>)
    requires WellFormed(fs) && d !in fs
    requires forall i :: 0 <= i < |d| ==> IsName(d[i])
    requires var (fs2, r2) := MkdirAll(fs, Parent(d));
      && WellFormed(fs2)
      && (forall k :: k in fs ==> k in fs2 && fs2[k] == fs[k])
      && (forall k :: k in fs2 && k !in fs ==> k <= Parent(d) && fs2[k] == Dir)
      && (r2.Ok? <==> !HasNul(Parent(d)) && !FileOnWay(fs, Parent(d)))
      && (r2.Ok? ==> forall i :: 0 <= i <= |Parent(d)| ==> Parent(d)[..i] in fs2 && fs2[Parent(d)[..i]] == Dir)
    ensures var (fs1, r) := MkdirAll(fs, d);
      && WellFormed(fs1)
      && (forall k :: k in fs ==> k in fs1 && fs1[k] == fs[k])
      && (forall k :: k in fs1 && k !in fs ==> k <= d && fs1[k] == Dir)
      && (r.Ok? <==> !HasNul(d) && !FileOnWay(fs, d))
      && (r.Ok? ==> forall i :: 0 <= i <= |d| ==> d[..i] in fs1 && fs1[d[..i]] == Dir)
  {
    LookupFinds(fs, d);
    assert d != [];
    var p := Parent(d);
    var (fs2, r2) := MkdirAll(fs, p);
    assert MkdirAll(fs, d) == (if r2.Err? then (fs2, r2)
                               else if HasNul(d) then (fs2, Err(EINVAL))
                               else (fs2[d := Dir], Ok(())));
    PrefixesOfParent(fs, d);
    NulOfParent(d);
    if r2.Ok? && !HasNul(d) {
      AddDirOnPath(fs2, d);
    }
  }

  /** Adding `d` once every prefix of its parent is a directory makes every prefix of `d` one. */
  lemma AddDirOnPath(fs: FS, d: seq<string>)
    requires WellFormed(fs) && d != [] && !HasNul(d)
    requires forall i :: 0 <= i < |d| ==> IsName(d[i])
    requires forall i :: 0 <= i <= |Parent(d)| ==> Parent(d)[..i] in fs && fs[Parent(d)[..i]] == Dir
    ensures WellFormed(fs[d := Dir])
    ensures forall i :: 0 <= i <= |d| ==> d[..i] in fs[d := Dir] && fs[d := Dir][d[..i]] == Dir
  {
    var p := Parent(d);
    var fs1 := fs[d := Dir];
    assert p[..|p|] == p;
    AddDir(fs, d);
    forall i | 0 <= i <= |d|
      ensures d[..i] in fs1 && fs1[d[..i]] == Dir
    {
      if i < |d| {
        assert d[..i] == p[..i];
      } else {
        assert d[..i] == d;
      }
    }
  }

  /** Adding a directory whose parent is a directory keeps a tree well formed. */
  lemma AddDir(fs: FS, d: seq<string>)
    requires WellFormed(fs) && d != [] && Parent(d) in fs && fs[Parent(d)] == Dir
    requires !HasNul(d) && forall i :: 0 <= i < |d| ==> IsName(d[i])
    ensures WellFormed(fs[d := Dir])
  {
    var fs1 := fs[d := Dir];
    forall k, i | k in fs1 && 0 <= i < |k|
      ensures IsName(k[i]) && '\0' !in k[i]
    {
      if k == d {
        assert !('\0' in d[i]);
      }
    }
  }

  lemma PrefixesOfParent(fs: FS, d: seq<string>)
    requires WellFormed(fs) && d != [] && d !in fs
    ensures FileOnWay(fs, d) <==> FileOnWay(fs, Parent(d))
  {
    var p := Parent(d);
    if FileOnWay(fs, d) {
      var i :| 0 <= i <= |d| && d[..i] in fs && fs[d[..i]].File?;
      assert d[..|d|] == d;
      assert i < |d|;
      assert d[..i] == p[..i];
    }
    if FileOnWay(fs, p) {
      var i :| 0 <= i <= |p| && p[..i] in fs && fs[p[..i]].File?;
      assert d[..i] == p[..i];
    }
  }

  lemma NulOfParent(d: seq<string>)
    requires d != []
    ensures HasNul(d) <==> HasNul(Parent(d)) || '\0' in d[|d| - 1]
  {
    var p := Parent(d);
    if HasNul(d) {
      var i :| 0 <= i < |d| && '\0' in d[i];
      if i < |p| {
        assert p[i] == d[i];
      }
    }
    if HasNul(p) {
      var i :| 0 <= i < |p| && '\0' in p[i];
      assert d[i] == p[i];
    }
  }

  /** Create on a well-formed tree with the parent a directory: `cs` now holds `data`, nothing
      else changed, the tree stays well formed; a directory at `cs` is EISDIR and untouched. */
  lemma CreateSpec(fs: FS, cs: seq<string>, data: seq<byte>)
    requires WellFormed(fs) && |data| <= MaxInt64
    requires cs != [] && Parent(cs) in fs && fs[Parent(cs)] == Dir
    requires forall i :: 0 <= i < |cs| ==> IsName(cs[i])
    ensures cs in fs && fs[cs] == Dir ==> Create(fs, cs, data) == Err(EISDIR)
    ensures HasNul(cs) ==> Create(fs, cs, data) == Err(EINVAL)
    ensures !HasNul(cs) && !(cs in fs && fs[cs] == Dir) ==>
              Create(fs, cs, data) == Ok(fs[cs := File(data)])
              && WellFormed(fs[cs := File(data)])
  {
    LookupFinds(fs, cs);
    var p := Parent(cs);
    if !HasNul(cs) && cs !in fs {
      forall i | 0 <= i < |cs|
        ensures !(cs[..i] in fs && fs[cs[..i]].File?)
      {
        if i < |p| {
          assert cs[..i] == p[..i];
          AncestorsAreDirs(fs, p, i);
        } else {
          assert cs[..i] == p;
        }
      }
      var fs1 := fs[cs := File(data)];
      forall k, i | k in fs1 && 0 <= i < |k|
        ensures IsName(k[i]) && '\0' !in k[i]
      {
        if k == cs {
          assert !('\0' in cs[i]);
        }
      }
    }
    if !HasNul(cs) && cs in fs && fs[cs].File? {
      var fs1 := fs[cs := File(data)];
      forall k | k in fs1 && k != []
        ensures Parent(k) in fs1 && fs1[Parent(k)] == Dir
      {
        assert Parent(k) in fs && fs[Parent(k)] == Dir;
      }
    }
  }

  /** Remove on a well-formed tree: an entry that is absent is an error, a file goes, the root
      is busy, a directory goes exactly when it has no entries. */
  lemma RemoveSpec(fs: FS, cs: seq<string>)
    requires WellFormed(fs)
    ensures cs !in fs ==> Remove(fs, cs).Err?
    ensures cs in fs && fs[cs].File? ==> Remove(fs, cs) == Ok(fs - {cs})
    ensures cs == [] ==> Remove(fs, cs) == Err(EBUSY)
    ensures cs in fs && fs[cs] == Dir && cs != [] ==>
              Remove(fs, cs) == (if exists n :: cs + [n] in fs then Err(ENOTEMPTY) else Ok(fs - {cs}))
  {
    LookupFinds(fs, cs);
    ChildrenIff(fs, cs);
    if cs in fs && fs[cs] == Dir && cs != [] && Children(fs, cs) != {} {
      var n :| n in Children(fs, cs);
      assert cs + [n] in fs;
    }
  }

  /** A successful Remove takes out exactly that entry and leaves a well-formed tree. */
  lemma RemoveKeepsWellFormed(fs: FS, cs: seq<string>)
    requires WellFormed(fs) && Remove(fs, cs).Ok?
    ensures Remove(fs, cs).value == fs - {cs}
    ensures WellFormed(fs - {cs})
  {
    LookupFinds(fs, cs);
    ChildrenIff(fs, cs);
    assert cs != [] && cs in fs;
    forall n
      ensures cs + [n] !in fs
    {
      assert Parent(cs + [n]) == cs;
    }
    RemoveLeaf(fs, cs);
  }

  lemma RemoveLeaf(fs: FS, cs: seq<string>)
    requires WellFormed(fs) && cs != []
    requires forall n :: cs + [n] !in fs
    ensures WellFormed(fs - {cs})
  {
    var fs1 := fs - {cs};
    forall k | k in fs1 && k != []
      ensures Parent(k) in fs1 && fs1[Parent(k)] == Dir
    {
      LastSplit(k);
      assert Parent(k) != cs;
    }
  }

  lemma LastSplit(k: seq<string>)
    requires k != []
    ensures k == Parent(k) + [k[|k| - 1]]
  {
  }
}
