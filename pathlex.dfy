/** Lexical path handling in the style of Go's `path` and `path/filepath` packages on a
    '/'-separated system: `strings.Split`/`strings.Join` on '/', `path.Clean`, `filepath.Rel`,
    `filepath.Base`, and the component view of an absolute clean path. Nothing here touches a
    filesystem. */
module PathLex {
  import opened Strs

  // ---------------------------------------------------------------------------------------
  // Splitting and joining on '/'
  // ---------------------------------------------------------------------------------------

  /** `strings.Split(s, "/")`: always at least one (possibly empty) segment. */
  function Split(s: string): (r: seq<string>)
    ensures |r| >= 1
    decreases |s|
  {
    if |s| == 0 then [""]
    else if s[0] == '/' then [""] + Split(s[1..])
    else
      var rest := Split(s[1..]);
      [[s[0]] + rest[0]] + rest[1..]
  }

  /** `strings.Join(xs, "/")`. */
  function Join(xs: seq<string>): string
  {
    if |xs| == 0 then ""
    else if |xs| == 1 then xs[0]
    else xs[0] + "/" + Join(xs[1..])
  }

  predicate NoSlash(xs: seq<string>)
  {
    forall i :: 0 <= i < |xs| ==> '/' !in xs[i]
  }

  lemma {:induction false} SplitNoSlash(s: string)
    ensures NoSlash(Split(s))
    decreases |s|
  {
    if |s| > 0 {
      SplitNoSlash(s[1..]);
      if s[0] != '/' {
        var rest := Split(s[1..]);
        assert '/' !in rest[0];
        assert '/' !in [s[0]] + rest[0];
      }
    }
  }

  lemma {:induction false} SplitOfName(a: string)
    requires '/' !in a
    ensures Split(a) == [a]
    decreases |a|
  {
    if |a| > 0 {
      SplitOfName(a[1..]);
      assert [a[0]] + a[1..] == a;
    }
  }

  /** Splitting distributes over a '/'-join of two strings. */
  lemma {:induction false} SplitAppend(a: string, b: string)
    ensures Split(a + "/" + b) == Split(a) + Split(b)
    decreases |a|
  {
    var s := a + "/" + b;
    if |a| == 0 {
      assert s == "/" + b;
      assert s[1..] == b;
    } else {
      assert s[0] == a[0];
      assert s[1..] == a[1..] + "/" + b;
      SplitAppend(a[1..], b);
    }
  }

  /** The head segment is a prefix of the string. */
  lemma {:induction false} SplitHeadPrefix(s: string)
    ensures Split(s)[0] <= s
    decreases |s|
  {
    if |s| > 0 && s[0] != '/' {
      SplitHeadPrefix(s[1..]);
    }
  }

  /** `Split` then `Join` gives the string back. */
  lemma {:induction false} JoinSplit(s: string)
    ensures Join(Split(s)) == s
    decreases |s|
  {
    if |s| > 0 {
      JoinSplit(s[1..]);
      var rest := Split(s[1..]);
      if s[0] == '/' {
        assert Join([""] + rest) == "" + "/" + Join(rest);
      } else {
        var r := [[s[0]] + rest[0]] + rest[1..];
        if |rest| == 1 {
          assert Join(r) == [s[0]] + rest[0];
        } else {
          assert r[1..] == rest[1..];
          assert Join(r) == [s[0]] + rest[0] + "/" + Join(rest[1..]);
          assert Join(rest) == rest[0] + "/" + Join(rest[1..]);
        }
      }
    }
  }

  /** `Join` then `Split` gives the segments back, when no segment holds a '/'. */
  lemma {:induction false} SplitJoin(xs: seq<string>)
    requires |xs| >= 1 && NoSlash(xs)
    ensures Split(Join(xs)) == xs
    decreases |xs|
  {
    SplitOfName(xs[0]);
    if |xs| > 1 {
      SplitJoin(xs[1..]);
      SplitAppend(xs[0], Join(xs[1..]));
      assert [xs[0]] + xs[1..] == xs;
    }
  }

  lemma {:induction false} JoinAppend(a: seq<string>, b: seq<string>)
    requires |a| >= 1 && |b| >= 1
    ensures Join(a + b) == Join(a) + "/" + Join(b)
    decreases |a|
  {
    if |a| == 1 {
      assert (a + b)[1..] == b;
    } else {
      JoinAppend(a[1..], b);
      assert (a + b)[1..] == a[1..] + b;
    }
  }

  // ---------------------------------------------------------------------------------------
  // path.Clean
  // ---------------------------------------------------------------------------------------

  /** A path component: non-empty, not "." or "..", no separator. */
  predicate IsName(s: string)
  {
    s != "" && s != "." && s != ".." && '/' !in s
  }

  /** One segment of `path.Clean`'s scan: empty and "." segments vanish, ".." removes the last
      real element, is dropped at the root of a rooted path and kept in front of a relative one. */
  function Step(st: seq<string>, seg: string, rooted: bool): seq<string>
  {
    if seg == "" || seg == "." then st
    else if seg == ".." then
      if |st| > 0 && st[|st| - 1] != ".." then st[..|st| - 1]
      else if rooted then st
      else st + [".."]
    else st + [seg]
  }

  /** The left-to-right scan of `path.Clean` over a list of segments. */
  function Run(st: seq<string>, segs: seq<string>, rooted: bool): seq<string>
    decreases |segs|
  {
    if |segs| == 0 then st else Run(Step(st, segs[0], rooted), segs[1..], rooted)
  }

  /** `path.Clean` (and `filepath.Clean` with '/' as separator). */
  function Clean(p: string): (r: string)
    ensures r != ""
  {
    if p == "" then "."
    else
      var rooted := p[0] == '/';
      var body := Join(Run([], Split(p), rooted));
      if rooted then "/" + body
      else if body == "" then "."
      else body
  }

  /** What the scan leaves behind: no empty or "." element, no separator, and ".." only as a
      leading run of a relative path. */
  predicate Normal(st: seq<string>, rooted: bool)
  {
    && (forall i :: 0 <= i < |st| ==> st[i] != "" && st[i] != "." && '/' !in st[i])
    && (forall i :: 0 <= i < |st| && st[i] == ".." ==> !rooted)
    && (forall i, j :: 0 <= j < i < |st| && st[i] == ".." ==> st[j] == "..")
  }

  lemma StepNormal(st: seq<string>, seg: string, rooted: bool)
    requires Normal(st, rooted) && '/' !in seg
    ensures Normal(Step(st, seg, rooted), rooted)
  {
    if seg == ".." && !(|st| > 0 && st[|st| - 1] != "..") && !rooted {
      var r := st + [".."];
      forall i, j | 0 <= j < i < |r| && r[i] == ".."
        ensures r[j] == ".."
      {
        if i < |st| {
          assert st[i] == "..";
        } else {
          assert st[|st| - 1] == "..";
          if j < |st| - 1 {
            assert st[j] == "..";
          }
        }
      }
    }
  }

  lemma {:induction false} RunNormal(st: seq<string>, segs: seq<string>, rooted: bool)
    requires Normal(st, rooted) && NoSlash(segs)
    ensures Normal(Run(st, segs, rooted), rooted)
    decreases |segs|
  {
    if |segs| > 0 {
      StepNormal(st, segs[0], rooted);
      RunNormal(Step(st, segs[0], rooted), segs[1..], rooted);
    }
  }

  /** A resolved stack is a fixed point of the scan. */
  lemma {:induction false} RunNormalIdentity(acc: seq<string>, st: seq<string>, rooted: bool)
    requires Normal(acc + st, rooted)
    ensures Run(acc, st, rooted) == acc + st
    decreases |st|
  {
    if |st| > 0 {
      var all := acc + st;
      assert all[|acc|] == st[0];
      if st[0] == ".." && |acc| > 0 {
        assert all[|acc| - 1] == "..";
      }
      assert Step(acc, st[0], rooted) == acc + [st[0]];
      assert (acc + [st[0]]) + st[1..] == all;
      RunNormalIdentity(acc + [st[0]], st[1..], rooted);
    }
  }

  lemma {:induction false} RunAppend(st: seq<string>, a: seq<string>, b: seq<string>, rooted: bool)
    ensures Run(st, a + b, rooted) == Run(Run(st, a, rooted), b, rooted)
    decreases |a|
  {
    if |a| > 0 {
      assert (a + b)[0] == a[0];
      assert (a + b)[1..] == a[1..] + b;
      RunAppend(Step(st, a[0], rooted), a[1..], b, rooted);
    } else {
      assert a + b == b;
    }
  }

  /** Without a ".." segment the scan only appends. */
  lemma {:induction false} RunNoParent(acc: seq<string>, segs: seq<string>, rooted: bool)
    requires forall i :: 0 <= i < |segs| ==> segs[i] != ".."
    ensures Run(acc, segs, rooted) == acc + Run([], segs, rooted)
    decreases |segs|
  {
    if |segs| > 0 {
      var x := Step([], segs[0], rooted);
      assert x == [] || x == [segs[0]];
      assert Step(acc, segs[0], rooted) == acc + x;
      RunNoParent(acc + x, segs[1..], rooted);
      RunNoParent(x, segs[1..], rooted);
      StackAssoc(acc, x, Run([], segs[1..], rooted));
    }
  }

  lemma StackAssoc(a: seq<string>, b: seq<string>, c: seq<string>)
    ensures (a + b) + c == a + (b + c)
  {
  }

  /** Every element the scan leaves was already on the stack or is one of the segments. */
  lemma {:induction false} RunElements(st: seq<string>, segs: seq<string>, rooted: bool)
    ensures forall e :: e in Run(st, segs, rooted) ==> e in st || e in segs
    decreases |segs|
  {
    if |segs| > 0 {
      RunElements(Step(st, segs[0], rooted), segs[1..], rooted);
    }
  }

  lemma JoinHead(xs: seq<string>)
    requires |xs| >= 1 && xs[0] != ""
    ensures Join(xs) != "" && Join(xs)[0] == xs[0][0]
  {
  }

  lemma SplitOfRooted(body: string)
    ensures Split("/" + body) == [""] + Split(body)
  {
    SplitAppend("", body);
    assert "" + "/" + body == "/" + body;
  }

  lemma CleanOfDot()
    ensures Clean(".") == "."
  {
    SplitOfName(".");
  }

  /** A relative path given by its '/'-separated segments cleans to the '/'-join of what the
      scan leaves, when that is not empty. */
  lemma CleanRelative(p: string, segs: seq<string>)
    requires p != "" && p[0] != '/'
    requires |segs| >= 1 && NoSlash(segs) && Join(segs) == p
    requires Run([], segs, false) != []
    ensures Clean(p) == Join(Run([], segs, false))
  {
    SplitJoin(segs);
    var st := Run([], segs, false);
    RunNormal([], segs, false);
    JoinHead(st);
    CleanRelativeUnfold(p, Join(st));
  }

  lemma CleanRelativeUnfold(p: string, body: string)
    requires p != "" && p[0] != '/' && body == Join(Run([], Split(p), false)) && body != ""
    ensures Clean(p) == body
  {
  }

  /** A rooted path cleans to the root followed by its resolved components. */
  lemma CleanRooted(x: string)
    requires |x| > 0 && x[0] == '/'
    ensures Clean(x) == AbsPath(Components(x))
    ensures Normal(Components(x), true)
  {
    SplitNoSlash(x);
    RunNormal([], Split(x), true);
  }

  /** `path.Clean` is idempotent. */
  lemma CleanIdempotent(p: string)
    ensures Clean(Clean(p)) == Clean(p)
  {
    if p == "" {
      CleanOfDot();
    } else {
      var rooted := p[0] == '/';
      var st := Run([], Split(p), rooted);
      SplitNoSlash(p);
      RunNormal([], Split(p), rooted);
      var body := Join(st);
      if rooted {
        CleanOfAbsPath(st);
      } else if body == "" {
        CleanOfDot();
      } else {
        assert st != [];
        JoinHead(st);
        SplitJoin(st);
        RunNormalIdentity([], st, false);
        assert [] + st == st;
      }
    }
  }

  /** Joining a resolved stack under the root gives a clean absolute path with that stack as its
      components. */
  lemma CleanOfAbsPath(st: seq<string>)
    requires Normal(st, true)
    ensures Clean(AbsPath(st)) == AbsPath(st)
    ensures Components(AbsPath(st)) == st
  {
    var q := AbsPath(st);
    SplitOfRooted(Join(st));
    if st == [] {
      assert Split(q) == ["", ""];
      assert Run([], [""], true) == [];
      assert Run([], ["", ""], true) == Run([], [""], true);
    } else {
      SplitJoin(st);
      assert Split(q) == [""] + st;
      assert Run([], [""] + st, true) == Run([], st, true);
      RunNormalIdentity([], st, true);
      assert [] + st == st;
    }
  }

  // ---------------------------------------------------------------------------------------
  // What a cleaned path looks like
  // ---------------------------------------------------------------------------------------

  /** Elements fit for the body of a clean path: non-empty and without separator. */
  predicate Segmentish(xs: seq<string>)
  {
    forall i :: 0 <= i < |xs| ==> xs[i] != "" && '/' !in xs[i]
  }

  lemma {:induction false} JoinShape(xs: seq<string>)
    requires |xs| >= 1 && Segmentish(xs)
    ensures Join(xs) != "" && Join(xs)[0] != '/' && Join(xs)[|Join(xs)| - 1] != '/'
    ensures !Contains(Join(xs), "//")
    decreases |xs|
  {
    if |xs| == 1 {
      NoPairInSlashFree(xs[0], '/', '/');
    } else {
      JoinShape(xs[1..]);
      var j := Join(xs[1..]);
      NoPairInSlashFree(xs[0], '/', '/');
      NotContainsShort("/", "//");
      if Contains(xs[0] + ("/" + j), "//") {
        ContainsPairConcat(xs[0], "/" + j, '/', '/');
        assert ("/" + j)[0] == '/';
        ContainsPairConcat("/", j, '/', '/');
      }
      assert xs[0] + "/" + j == xs[0] + ("/" + j);
    }
  }

  lemma NotContainsShort(s: string, sub: string)
    requires |s| < |sub|
    ensures !Contains(s, sub)
    decreases |s|
  {
    if |s| > 0 {
      NotContainsShort(s[1..], sub);
    }
  }

  /** A string without the pattern's first character does not contain the pattern. */
  lemma {:induction false} NoPairInSlashFree(s: string, x: char, y: char)
    requires x !in s
    ensures !Contains(s, [x, y])
    decreases |s|
  {
    if |s| > 0 {
      NoPairInSlashFree(s[1..], x, y);
      assert s[0] != x;
    } else {
      NotContainsShort(s, [x, y]);
    }
  }

  /** A cleaned path is never empty, has no empty segment ("//"), and ends in '/' only when it is
      exactly "/". */
  lemma CleanShape(p: string)
    ensures Clean(p) != ""
    ensures Clean(p) == "/" || Clean(p)[|Clean(p)| - 1] != '/'
    ensures !Contains(Clean(p), "//")
  {
    if p == "" {
      NotContainsShort(".", "//");
    } else {
      var rooted := p[0] == '/';
      var st := Run([], Split(p), rooted);
      SplitNoSlash(p);
      RunNormal([], Split(p), rooted);
      var body := Join(st);
      if st == [] {
        NotContainsShort("/", "//");
        NotContainsShort(".", "//");
      } else {
        JoinShape(st);
        if rooted {
          if Contains("/" + body, "//") {
            ContainsPairConcat("/", body, '/', '/');
            NotContainsShort("/", "//");
          }
        }
      }
    }
  }

  /** Segments keep a two-character pattern out when the string has none. */
  lemma {:induction false} SplitKeepsPairOut(s: string, x: char, y: char)
    requires !Contains(s, [x, y])
    ensures forall i :: 0 <= i < |Split(s)| ==> !Contains(Split(s)[i], [x, y])
    decreases |s|
  {
    if |s| == 0 {
      NotContainsShort("", [x, y]);
    } else {
      SplitKeepsPairOut(s[1..], x, y);
      if s[0] == '/' {
        NotContainsShort("", [x, y]);
      } else {
        var rest := Split(s[1..]);
        SplitHeadPrefix(s[1..]);
        assert [s[0]] + rest[0] <= s;
        if Contains([s[0]] + rest[0], [x, y]) {
          ContainsPrefixMono([s[0]] + rest[0], s, [x, y]);
        }
      }
    }
  }

  lemma {:induction false} ContainsPrefixMono(t: string, s: string, sub: string)
    requires t <= s && Contains(t, sub)
    ensures Contains(s, sub)
    decreases |t|
  {
    if sub <= t {
      assert sub <= s;
    } else {
      assert t[1..] <= s[1..];
      ContainsPrefixMono(t[1..], s[1..], sub);
    }
  }

  /** Joining with '/' cannot create a pattern of two non-separator characters. */
  lemma {:induction false} JoinKeepsPairOut(xs: seq<string>, x: char, y: char)
    requires x != '/' && y != '/'
    requires forall i :: 0 <= i < |xs| ==> !Contains(xs[i], [x, y])
    ensures !Contains(Join(xs), [x, y])
    decreases |xs|
  {
    if |xs| == 0 {
      NotContainsShort("", [x, y]);
    } else if |xs| > 1 {
      JoinKeepsPairOut(xs[1..], x, y);
      var j := Join(xs[1..]);
      assert xs[0] + "/" + j == xs[0] + ("/" + j);
      if Contains(xs[0] + ("/" + j), [x, y]) {
        ContainsPairConcat(xs[0], "/" + j, x, y);
        if Contains("/" + j, [x, y]) {
          ContainsPairCons('/', j, x, y);
        }
      }
    }
  }

  /** `path.Clean` introduces no ".." into a path that has none. */
  lemma CleanKeepsDotDotOut(p: string)
    requires !Contains(p, "..")
    ensures !Contains(Clean(p), "..")
  {
    if p == "" {
      NotContainsShort("", "..");
      assert !Contains(".", "..") by { NotContainsShort(".", ".."); }
    } else {
      var rooted := p[0] == '/';
      var segs := Split(p);
      var st := Run([], segs, rooted);
      SplitKeepsPairOut(p, '.', '.');
      RunElements([], segs, rooted);
      forall i | 0 <= i < |st|
        ensures !Contains(st[i], "..")
      {
        assert st[i] in segs;
      }
      JoinKeepsPairOut(st, '.', '.');
      var body := Join(st);
      if rooted {
        if Contains("/" + body, "..") {
          ContainsPairCons('/', body, '.', '.');
        }
      } else if body == "" {
        NotContainsShort(".", "..");
      }
    }
  }

  /** Every character of a cleaned path comes from the input, or is '/' or '.'. */
  lemma CleanChars(p: string)
    ensures forall c :: c in Clean(p) ==> c in p || c == '/' || c == '.'
  {
    if p != "" {
      var rooted := p[0] == '/';
      var segs := Split(p);
      var st := Run([], segs, rooted);
      SplitChars(p);
      RunElements([], segs, rooted);
      JoinChars(st);
      forall c | c in Join(st)
        ensures c in p || c == '/' || c == '.'
      {
        var i :| 0 <= i < |st| && (c in st[i] || c == '/');
        if c != '/' {
          assert st[i] in segs;
        }
      }
    }
  }

  lemma {:induction false} SplitChars(s: string)
    ensures forall i, c :: 0 <= i < |Split(s)| && c in Split(s)[i] ==> c in s
    decreases |s|
  {
    if |s| > 0 {
      SplitChars(s[1..]);
      var rest := Split(s[1..]);
      forall i, c | 0 <= i < |Split(s)| && c in Split(s)[i]
        ensures c in s
      {
        if s[0] == '/' {
          assert i > 0 && Split(s)[i] == rest[i - 1];
          assert c in s[1..];
        } else if i == 0 {
          assert c == s[0] || c in rest[0];
          if c != s[0] {
            assert c in s[1..];
          }
        } else {
          assert Split(s)[i] == rest[i];
          assert c in s[1..];
        }
      }
    }
  }

  lemma {:induction false} JoinChars(xs: seq<string>)
    ensures forall c :: c in Join(xs) ==> exists i :: 0 <= i < |xs| && (c in xs[i] || c == '/')
    decreases |xs|
  {
    if |xs| > 1 {
      JoinChars(xs[1..]);
      forall c | c in Join(xs)
        ensures exists i :: 0 <= i < |xs| && (c in xs[i] || c == '/')
      {
        if c in xs[0] || c == '/' {
          assert c in xs[0] || c == '/';
        } else {
          assert c in Join(xs[1..]);
          var i :| 0 <= i < |xs[1..]| && (c in xs[1..][i] || c == '/');
          assert xs[1..][i] == xs[i + 1];
        }
      }
    } else if |xs| == 1 {
      assert forall c :: c in Join(xs) ==> c in xs[0];
    }
  }

  // ---------------------------------------------------------------------------------------
  // Absolute clean paths as component lists; filepath.Base and filepath.Rel
  // ---------------------------------------------------------------------------------------

  /** The components of an absolute path: what `Clean` keeps below the root. */
  function Components(p: string): seq<string>
  {
    Run([], Split(p), true)
  }

  /** The absolute path with the given components. */
  function AbsPath(cs: seq<string>): string
  {
    "/" + Join(cs)
  }

  /** Appending components extends the absolute path textually, after one separator. */
  lemma AbsPathExtends(cs: seq<string>, rest: seq<string>)
    requires |cs| >= 1 && |rest| >= 1
    ensures AbsPath(cs + rest) == AbsPath(cs) + "/" + Join(rest)
    ensures AbsPath(cs) <= AbsPath(cs + rest)
  {
    JoinAppend(cs, rest);
    SlashAssoc(Join(cs), Join(rest));
    PrefixOfConcat(AbsPath(cs), "/" + Join(rest));
  }

  lemma SlashAssoc(x: string, y: string)
    ensures "/" + (x + "/" + y) == ("/" + x) + "/" + y
  {
  }

  lemma PrefixOfConcat(a: string, b: string)
    ensures a <= a + b
  {
    assert (a + b)[..|a|] == a;
  }

  predicate IsAbsClean(p: string)
  {
    |p| > 0 && p[0] == '/' && Clean(p) == p
  }

  /** Components of a rooted normal stack are proper names. */
  lemma NormalRootedNames(cs: seq<string>)
    requires Normal(cs, true)
    ensures forall i :: 0 <= i < |cs| ==> IsName(cs[i])
  {
  }

  /** A clean absolute path is exactly the root followed by its components. */
  lemma AbsCleanComponents(p: string)
    requires IsAbsClean(p)
    ensures p == AbsPath(Components(p))
    ensures Normal(Components(p), true)
    ensures forall i :: 0 <= i < |Components(p)| ==> IsName(Components(p)[i])
  {
    CleanRooted(p);
  }

  /** `filepath.Base` of an absolute clean path. */
  function Base(cs: seq<string>): string
  {
    if cs == [] then "/" else cs[|cs| - 1]
  }

  /** The base of "/" is "/", and the base of an entry of a directory is the entry's own name. */
  lemma BaseOfChild(d: seq<string>, name: string)
    ensures Base([]) == "/"
    ensures Base(d + [name]) == name
  {
    assert (d + [name])[|d|] == name;
  }

  function CommonPrefixLen(a: seq<string>, b: seq<string>): (k: nat)
    ensures k <= |a| && k <= |b| && a[..k] == b[..k]
    ensures k < |a| && k < |b| ==> a[k] != b[k]
  {
    if |a| == 0 || |b| == 0 || a[0] != b[0] then 0
    else
      var k := 1 + CommonPrefixLen(a[1..], b[1..]);
      assert a[..k] == [a[0]] + a[1..][..k - 1];
      assert b[..k] == [b[0]] + b[1..][..k - 1];
      k
  }

  /** `filepath.Rel(base, targ)` for two absolute clean paths, given as component lists: one ".."
      per component of `base` past the common prefix, then the rest of `targ`. */
  function Rel(base: seq<string>, targ: seq<string>): (r: string)
    ensures base <= targ ==> r == if |targ| == |base| then "." else Join(targ[|base|..])
  {
    var k := CommonPrefixLen(base, targ);
    assert base <= targ ==> k == |base|;
    var rest := seq(|base| - k, _ => "..") + targ[k..];
    assert base <= targ ==> rest == targ[|base|..];
    if rest == [] then "." else Join(rest)
  }

  /** Below the base: the relative path is the remaining components joined with '/'. */
  lemma RelUnder(base: seq<string>, rest: seq<string>)
    ensures Rel(base, base + rest) == if rest == [] then "." else Join(rest)
  {
    var k := CommonPrefixLen(base, base + rest);
    assert k == |base|;
    assert (base + rest)[|base|..] == rest;
    assert seq(|base| - k, _ => "..") == [];
    assert seq(|base| - k, _ => "..") + (base + rest)[k..] == rest;
  }
}
