/** The boundary path guard of the HTTP pipeline: it looks at the request's "path" query
    parameter (as the parsed query holds it, already decoded once), decodes it a second time to
    catch double-encoded traversal, refuses ".." and NUL, and otherwise hands the next handler
    the request with the parameter replaced by its cleaned form. */
module PathGuard {
  import opened Common
  import opened Strs
  import opened PathLex
  import opened Query

  const StatusBadRequest := 400

  /** What the guard does with a request: call the next handler with this query, or answer
      with an error status and the message of the JSON error body. */
  datatype Outcome = Next(query: Values) | Reject(status: int, message: string)

  /** `containsTraversal`: the value holds two consecutive dots somewhere. */
  function ContainsTraversal(s: string): (b: bool)
    ensures b <==> exists i :: 0 <= i < |s| - 1 && s[i] == '.' && s[i + 1] == '.'
  {
    DotPairs(s);
    Contains(s, "..")
  }

  /** `containsNullByte`: some byte of the value is NUL. */
  function ContainsNullByte(s: string): (b: bool)
    ensures b <==> exists i :: 0 <= i < |s| && s[i] == '\0'
  {
    '\0' in s
  }

  /** ".." occurs in a string exactly where two consecutive dots stand. */
  lemma DotPairs(s: string)
    ensures Contains(s, "..") <==> exists i :: 0 <= i < |s| - 1 && s[i] == '.' && s[i + 1] == '.'
  {
    ContainsIffOccurs(s, "..");
    if exists i :: 0 <= i < |s| - 1 && s[i] == '.' && s[i + 1] == '.' {
      var i :| 0 <= i < |s| - 1 && s[i] == '.' && s[i + 1] == '.';
      assert s[i..i + 2] == "..";
      assert MatchesAt(s, "..", i);
    }
    if OccursAt(s, "..") {
      var i: nat :| MatchesAt(s, "..", i);
      assert s[i..i + 2][0] == s[i] && s[i..i + 2][1] == s[i + 1];
    }
  }

  /** `PathGuard`'s decision for a request whose parsed query is `q`. */
  function Guard(q: Values): (o: Outcome)
    ensures Get(q, "path") == "" ==> o == Next(q)
    ensures o.Reject? ==> o.status == StatusBadRequest
    ensures o.Next? && Get(q, "path") != "" ==>
              var v := Get(o.query, "path");
              !ContainsTraversal(v) && !ContainsNullByte(v) && Clean(v) == v
  {
    var raw := Get(q, "path");
    if raw == "" then Next(q)
    else
      match Unescape(raw)
      case Err(_) => Reject(StatusBadRequest, "invalid path encoding")
      case Ok(decoded) =>
        if ContainsTraversal(decoded) || ContainsNullByte(decoded) then
          Reject(StatusBadRequest, "invalid path")
        else
          CleanKeepsDotDotOut(decoded);
          CleanChars(decoded);
          CleanIdempotent(decoded);
          Next(Set(q, "path", Clean(decoded)))
  }

  /** The guard's three answers, each with the condition that leads to it. */
  lemma GuardOutcomes(q: Values)
    ensures Get(q, "path") == "" ==> Guard(q) == Next(q)
    ensures Get(q, "path") != "" && Unescape(Get(q, "path")).Err? ==>
              Guard(q) == Reject(400, "invalid path encoding")
    ensures Get(q, "path") != "" && Unescape(Get(q, "path")).Ok? ==>
              var d := Unescape(Get(q, "path")).value;
              Guard(q) == if Contains(d, "..") || '\0' in d then Reject(400, "invalid path")
                          else Next(Set(q, "path", Clean(d)))
  {
  }

  /** The next handler runs exactly when the parameter is absent or empty, or decodes to a
      value with neither ".." nor NUL; every refusal is a 400. */
  lemma GuardPasses(q: Values)
    ensures Guard(q).Next? <==>
              var raw := Get(q, "path");
              raw == "" || (Unescape(raw).Ok? && !Contains(Unescape(raw).value, "..") && '\0' !in Unescape(raw).value)
    ensures Guard(q).Reject? ==> Guard(q).status == 400
  {
  }

  /** What the next handler sees after an accepted non-empty value: the cleaned value, which
      holds no "..", no NUL and no empty segment, ends in '/' only when it is "/", is its own
      cleaned form, and every other parameter is as it was. */
  lemma GuardForwarded(q: Values)
    requires Get(q, "path") != "" && Guard(q).Next?
    ensures var d := Unescape(Get(q, "path")).value;
      var q1 := Guard(q).query;
      var v := Get(q1, "path");
      && v == Clean(d)
      && !Contains(v, "..") && '\0' !in v
      && !Contains(v, "//") && (v == "/" || v[|v| - 1] != '/')
      && Clean(v) == v
      && (forall k :: k != "path" ==> (k in q1 <==> k in q) && (k in q ==> q1[k] == q[k]))
  {
    var d := Unescape(Get(q, "path")).value;
    CleanKeepsDotDotOut(d);
    CleanChars(d);
    CleanShape(d);
    CleanIdempotent(d);
  }

  /** The query is re-encoded for the next handler, which parses it again; the cleaned value of
      a byte string comes back unchanged. */
  lemma ForwardedSurvivesEncoding(q: Values)
    requires Get(q, "path") != "" && Guard(q).Next? && IsBytes(Get(q, "path"))
    ensures var v := Get(Guard(q).query, "path");
      IsBytes(v) && Unescape(Escape(v)) == Ok(v)
  {
    var d := Unescape(Get(q, "path")).value;
    UnescapeBytes(Get(q, "path"));
    CleanChars(d);
    var v := Clean(d);
    assert IsBytes(v) by {
      forall i | 0 <= i < |v|
        ensures v[i] as int < 256
      {
        assert v[i] in v;
        if v[i] != '/' && v[i] != '.' {
          var j :| 0 <= j < |d| && d[j] == v[i];
        }
      }
    }
    UnescapeEscape(v);
  }

  // ---------------------------------------------------------------------------------------
  // The requests of the guard's own tests
  // ---------------------------------------------------------------------------------------

  /** A query whose only parameter is "path". */
  function PathQuery(value: string): (q: Values)
    ensures Get(q, "path") == value
  {
    map["path" := [value]]
  }

  /** A value of plain characters, once decoded, that holds ".." at index `i` is refused. */
  lemma RejectsPlainTraversal(raw: string, i: nat)
    requires raw != "" && '%' !in raw && '+' !in raw
    requires i + 1 < |raw| && raw[i] == '.' && raw[i + 1] == '.'
    ensures Guard(PathQuery(raw)) == Reject(400, "invalid path")
  {
    assert raw[i] == '.' && raw[i + 1] == '.';
  }

  lemma BlocksDoubleDot(raw: string)
    requires raw == "../etc/passwd"
    ensures Guard(PathQuery(raw)) == Reject(400, "invalid path")
  {
    RejectsPlainTraversal(raw, 0);
  }

  lemma BlocksRootedTraversal(raw: string)
    requires raw == "/../../../etc/passwd"
    ensures Guard(PathQuery(raw)) == Reject(400, "invalid path")
  {
    RejectsPlainTraversal(raw, 1);
  }

  lemma BlocksMidPathTraversal(raw: string)
    requires raw == "files/../../../secret"
    ensures Guard(PathQuery(raw)) == Reject(400, "invalid path")
  {
    RejectsPlainTraversal(raw, 6);
  }

  /** "%2e%2e/etc/passwd" in the parsed query (sent as "%252e%252e/etc/passwd") decodes to
      "../etc/passwd" and is refused. */
  lemma BlocksDoubleEncoded(raw: string)
    requires raw == "%2e%2e/etc/passwd"
    ensures Guard(PathQuery(raw)) == Reject(400, "invalid path")
  {
    var dot, rest := "%2e", "/etc/passwd";
    DecodesDot(dot);
    PlainRest(rest);
    UnescapeAppend(dot, rest);
    UnescapeAppend(dot, dot + rest);
    DoubleEncodedPieces(raw, dot, rest);
    var d := Unescape(raw).value;
    assert d[0] == '.' && d[1] == '.';
  }

  lemma PlainRest(rest: string)
    requires rest == "/etc/passwd"
    ensures Unescape(rest) == Ok(rest)
  {
  }

  lemma DoubleEncodedPieces(raw: string, dot: string, rest: string)
    requires raw == "%2e%2e/etc/passwd" && dot == "%2e" && rest == "/etc/passwd"
    ensures raw == dot + (dot + rest)
    ensures "." + ("." + rest) == "../etc/passwd"
  {
  }

  lemma DecodesDot(e: string)
    requires e == "%2e"
    ensures Unescape(e) == Ok(".")
  {
    assert e[0] == '%' && e[1] == '2' && e[2] == 'e';
    assert e[3..] == "";
    assert HexByte('2', 'e') == '.';
    assert [HexByte(e[1], e[2])] + "" == ".";
  }

  /** Any value that decodes to one holding NUL, whether the NUL is plain or escaped as "%00",
      is refused as an invalid path. */
  lemma RejectsNullByte(raw: string, i: nat)
    requires Unescape(raw).Ok? && i < |Unescape(raw).value| && Unescape(raw).value[i] == '\0'
    ensures Guard(PathQuery(raw)) == Reject(400, "invalid path")
  {
    assert Unescape(raw).value[i] == '\0';
  }

  lemma BlocksNullByte(raw: string)
    requires raw == "file\0.txt"
    ensures Guard(PathQuery(raw)) == Reject(400, "invalid path")
  {
    RejectsNullByte(raw, 4);
  }

  /** A bare '%' or a '%' followed by a non-hexadecimal digit is a bad encoding. */
  lemma RejectsBadEscape(raw: string)
    requires raw == "%zz" || raw == "%"
    ensures Guard(PathQuery(raw)) == Reject(400, "invalid path encoding")
  {
  }

  /** An accepted non-empty value is replaced by its cleaned form. */
  lemma GuardAccepts(q: Values, d: string)
    requires Get(q, "path") != "" && Unescape(Get(q, "path")) == Ok(d)
    requires !ContainsTraversal(d) && !ContainsNullByte(d)
    ensures Guard(q) == Next(Set(q, "path", Clean(d)))
  {
  }

  /** A value of plain characters is forwarded as its cleaned form. */
  lemma ForwardsPlain(raw: string, cleaned: string)
    requires raw != "" && '%' !in raw && '+' !in raw
    requires !ContainsTraversal(raw) && !ContainsNullByte(raw)
    requires Clean(raw) == cleaned
    ensures Guard(PathQuery(raw)) == Next(PathQuery(cleaned))
  {
    GuardAccepts(PathQuery(raw), raw);
    assert Set(PathQuery(raw), "path", cleaned) == PathQuery(cleaned);
  }

  lemma ForwardsReadme(raw: string)
    requires raw == "readme.txt"
    ensures Guard(PathQuery(raw)) == Next(PathQuery(raw))
  {
    assert raw[0] != '/' && '%' !in raw && '+' !in raw && '\0' !in raw;
    CleanReadme(raw);
    ForwardsPlain(raw, raw);
  }

  lemma ForwardsNested(raw: string)
    requires raw == "docs/guide/intro.md"
    ensures Guard(PathQuery(raw)) == Next(PathQuery(raw))
  {
    NestedIsPlain(raw);
    CleanNested(raw);
    ForwardsPlain(raw, raw);
  }

  lemma NestedIsPlain(raw: string)
    requires raw == "docs/guide/intro.md"
    ensures raw[0] != '/' && '%' !in raw && '+' !in raw && '\0' !in raw
    ensures !ContainsTraversal(raw)
  {
  }

  lemma ForwardsTrailingSlash(raw: string)
    requires raw == "docs/guide/"
    ensures Guard(PathQuery(raw)) == Next(PathQuery("docs/guide"))
  {
    assert raw[0] != '/' && '%' !in raw && '+' !in raw && '\0' !in raw;
    CleanTrailingSlash(raw);
    ForwardsPlain(raw, "docs/guide");
  }

  lemma ForwardsDoubleSlash(raw: string)
    requires raw == "docs//guide"
    ensures Guard(PathQuery(raw)) == Next(PathQuery("docs/guide"))
  {
    assert raw[0] != '/' && '%' !in raw && '+' !in raw && '\0' !in raw;
    CleanDoubleSlash(raw);
    ForwardsPlain(raw, "docs/guide");
  }

  lemma ForwardsDotPrefix(raw: string)
    requires raw == "./readme.txt"
    ensures Guard(PathQuery(raw)) == Next(PathQuery("readme.txt"))
  {
    assert raw[0] != '/' && '%' !in raw && '+' !in raw && '\0' !in raw;
    CleanDotPrefix(raw);
    ForwardsPlain(raw, "readme.txt");
  }

  // `path.Clean` of the literal values above, each from the segments the value joins. The
  // facts about each literal are proved in lemmas of their own.

  lemma CleanReadme(raw: string)
    requires raw == "readme.txt"
    ensures Clean(raw) == raw
  {
    ReadmeSegments();
    CleanRelative(raw, ["readme.txt"]);
  }

  lemma CleanNested(raw: string)
    requires raw == "docs/guide/intro.md"
    ensures Clean(raw) == raw
  {
    NestedSegments();
    JoinedNested();
    CleanRelative(raw, ["docs", "guide", "intro.md"]);
  }

  lemma CleanTrailingSlash(raw: string)
    requires raw == "docs/guide/"
    ensures Clean(raw) == "docs/guide"
  {
    TrailingSlashSegments();
    JoinedTrailingSlash();
    JoinedDocsGuide();
    CleanRelative(raw, ["docs", "guide", ""]);
  }

  lemma CleanDoubleSlash(raw: string)
    requires raw == "docs//guide"
    ensures Clean(raw) == "docs/guide"
  {
    DoubleSlashSegments();
    JoinedDoubleSlash();
    JoinedDocsGuide();
    CleanRelative(raw, ["docs", "", "guide"]);
  }

  lemma CleanDotPrefix(raw: string)
    requires raw == "./readme.txt"
    ensures Clean(raw) == "readme.txt"
  {
    DotPrefixSegments();
    JoinedDotPrefix();
    CleanRelative(raw, [".", "readme.txt"]);
  }

  lemma ReadmeSegments()
    ensures NoSlash(["readme.txt"]) && Join(["readme.txt"]) == "readme.txt"
    ensures Run([], ["readme.txt"], false) == ["readme.txt"]
  {
  }

  lemma NestedSegments()
    ensures NoSlash(["docs", "guide", "intro.md"])
    ensures Run([], ["docs", "guide", "intro.md"], false) == ["docs", "guide", "intro.md"]
  {
  }

  lemma TrailingSlashSegments()
    ensures NoSlash(["docs", "guide", ""])
    ensures Run([], ["docs", "guide", ""], false) == ["docs", "guide"]
  {
  }

  lemma DoubleSlashSegments()
    ensures NoSlash(["docs", "", "guide"])
    ensures Run([], ["docs", "", "guide"], false) == ["docs", "guide"]
  {
  }

  lemma DotPrefixSegments()
    ensures NoSlash([".", "readme.txt"])
    ensures Run([], [".", "readme.txt"], false) == ["readme.txt"]
  {
  }

  lemma JoinedDocsGuide()
    ensures Join(["docs", "guide"]) == "docs/guide"
  {
  }

  lemma JoinedNested()
    ensures Join(["docs", "guide", "intro.md"]) == "docs/guide/intro.md"
  {
  }

  lemma JoinedTrailingSlash()
    ensures Join(["docs", "guide", ""]) == "docs/guide/"
  {
  }

  lemma JoinedDoubleSlash()
    ensures Join(["docs", "", "guide"]) == "docs//guide"
  {
  }

  lemma JoinedDotPrefix()
    ensures Join([".", "readme.txt"]) == "./readme.txt"
  {
  }
}
