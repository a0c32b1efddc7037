/**
 * Path helpers of the migrator library: `check_end`, `fixAssetPath` with its
 * fixed pattern `^projects/[^/]+/assets/.*$`, and the name of the token file
 * that `setupCredentialsForMigration` keeps for an asset root.
 */
module AssetPaths {
  import opened Strings

  /**
   * `check_end(in_path, add)`: append `add` unless Python's slice
   * `in_path[-len(add):]` already equals it.
   */
  function CheckEnd(inPath: string, add: string): (out: string)
    ensures EndsWith(out, add)
    ensures EndsWith(inPath, add) ==> out == inPath
    ensures !EndsWith(inPath, add) ==> out == inPath + add
  {
    if TailSlice(inPath, |add|) != add then inPath + add else inPath
  }

  lemma CheckEndIdempotent(inPath: string, add: string)
    ensures CheckEnd(CheckEnd(inPath, add), add) == CheckEnd(inPath, add)
  {
  }

  const ProjectsPrefix: string := "projects/"
  const AssetsSegment: string := "/assets/"
  /** The default `legacy_prefix` of `fixAssetPath`. */
  const LegacyPrefix: string := "projects/earthengine-legacy/assets/"

  /**
   * What `.*$` accepts: `.` matches anything but a newline and `$` matches
   * at the end or just before a final newline.
   */
  predicate LineRemainder(s: string) {
    forall i :: 0 <= i < |s| - 1 ==> s[i] != '\n'
  }

  /**
   * The pattern `^projects/[^/]+/assets/.*$` matches `path`, its `[^/]+`
   * part ending just before index `j`.
   */
  ghost predicate PatternMatchesAt(path: string, j: int) {
    && StartsWith(path, ProjectsPrefix)
    && |ProjectsPrefix| < j <= |path| - |AssetsSegment|
    && (forall i :: |ProjectsPrefix| <= i < j ==> path[i] != '/')
    && path[j..j + |AssetsSegment|] == AssetsSegment
    && LineRemainder(path[j + |AssetsSegment|..])
  }

  /**
   * `re.match(regex, path) != None` for the default regex of `fixAssetPath`:
   * the `[^/]+` part can only end at the first '/' after "projects/".
   */
  predicate MatchesAssetPattern(path: string) {
    && StartsWith(path, ProjectsPrefix)
    && var j := |ProjectsPrefix| + IndexOf(path[|ProjectsPrefix|..], '/');
    && |ProjectsPrefix| < j <= |path| - |AssetsSegment|
    && path[j..j + |AssetsSegment|] == AssetsSegment
    && LineRemainder(path[j + |AssetsSegment|..])
  }

  /** The computed test and the pattern agree on every path. */
  lemma MatchesAssetPatternCorrect(path: string)
    ensures MatchesAssetPattern(path) <==> exists j :: PatternMatchesAt(path, j)
  {
    if MatchesAssetPattern(path) {
      MatchWitness(path);
    }
    if j :| PatternMatchesAt(path, j) {
      MatchFromWitness(path, j);
    }
  }

  /** The test's first '/' after "projects/" is where `[^/]+` ends. */
  lemma MatchWitness(path: string)
    requires MatchesAssetPattern(path)
    ensures PatternMatchesAt(path, |ProjectsPrefix| + IndexOf(path[|ProjectsPrefix|..], '/'))
  {
    var n := |ProjectsPrefix|;
    assert n <= |path|;
    var rest := path[n..];
    var k := IndexOf(rest, '/');
    forall i | n <= i < n + k
      ensures path[i] != '/'
    {
      assert rest[i - n] != '/';
      assert rest[i - n] == path[i];
    }
  }

  /** Wherever `[^/]+` ends, it ends at the first '/' after "projects/". */
  lemma MatchFromWitness(path: string, j: int)
    requires PatternMatchesAt(path, j)
    ensures MatchesAssetPattern(path)
  {
    var n := |ProjectsPrefix|;
    assert n <= |path|;
    var rest := path[n..];
    assert path[j] == path[j..j + |AssetsSegment|][0] == '/';
    assert rest[j - n] == path[j];
    forall i | 0 <= i < j - n
      ensures rest[i] != '/'
    {
      assert rest[i] == path[n + i];
    }
    IndexOfIs(rest, '/', j - n);
  }

  /**
   * `fixAssetPath(path, legacy_prefix)` with the default regex: prefix the
   * path unless it already has the form `projects/<id>/assets/...`.
   */
  function FixAssetPath(path: string, legacyPrefix: string): string {
    if !MatchesAssetPattern(path) then legacyPrefix + path else path
  }

  /** A path the pattern matches is kept; any other is exactly prefixed. */
  lemma FixAssetPathSpec(path: string, legacyPrefix: string)
    ensures (exists j :: PatternMatchesAt(path, j)) ==> FixAssetPath(path, legacyPrefix) == path
    ensures (forall j :: !PatternMatchesAt(path, j)) ==> FixAssetPath(path, legacyPrefix) == legacyPrefix + path
  {
    MatchesAssetPatternCorrect(path);
  }

  /** Behind the default prefix, a path matches exactly when `.*$` accepts it. */
  lemma LegacyPrefixedMatches(rest: string)
    ensures MatchesAssetPattern(LegacyPrefix + rest) <==> LineRemainder(rest)
  {
    var path := LegacyPrefix + rest;
    var n := |ProjectsPrefix|;
    assert StartsWith(path, ProjectsPrefix);
    forall i | 0 <= i < 18
      ensures path[n..][i] != '/'
    {
      assert path[n..][i] == LegacyPrefix[n + i];
    }
    assert path[n..][18] == LegacyPrefix[27] == '/';
    IndexOfIs(path[n..], '/', 18);
    assert path[27..35] == LegacyPrefix[27..35] == AssetsSegment;
    assert path[35..] == rest;
  }

  /**
   * With the default prefix the result matches the pattern, unless the path
   * carries a newline before its last character.
   */
  lemma FixAssetPathMatches(path: string)
    ensures MatchesAssetPattern(FixAssetPath(path, LegacyPrefix)) <==> MatchesAssetPattern(path) || LineRemainder(path)
  {
    LegacyPrefixedMatches(path);
  }

  /** `fixAssetPath` is idempotent on exactly the paths whose fixed form matches. */
  lemma FixAssetPathIdempotent(path: string)
    ensures FixAssetPath(FixAssetPath(path, LegacyPrefix), LegacyPrefix) == FixAssetPath(path, LegacyPrefix)
            <==> MatchesAssetPattern(path) || LineRemainder(path)
  {
    FixAssetPathMatches(path);
    var once := FixAssetPath(path, LegacyPrefix);
    if !MatchesAssetPattern(once) {
      assert |FixAssetPath(once, LegacyPrefix)| == |LegacyPrefix| + |once| > |once|;
    }
  }

  /** A matching path stays matching when newline-free text is appended. */
  lemma MatchesExtended(path: string, more: string)
    requires MatchesAssetPattern(path) && NoNewline(path) && NoNewline(more)
    ensures MatchesAssetPattern(path + more)
  {
    var n := |ProjectsPrefix|;
    var k := IndexOf(path[n..], '/');
    var longer := path + more;
    assert longer[..n] == path[..n];
    forall i | 0 <= i < k
      ensures longer[n..][i] != '/'
    {
      assert longer[n..][i] == path[n..][i];
    }
    assert longer[n..][k] == path[n..][k];
    IndexOfIs(longer[n..], '/', k);
    assert longer[n + k..n + k + |AssetsSegment|] == path[n + k..n + k + |AssetsSegment|];
    var tail := longer[n + k + |AssetsSegment|..];
    forall i | 0 <= i < |tail|
      ensures tail[i] != '\n'
    {
      if n + k + |AssetsSegment| + i < |path| {
        assert tail[i] == path[n + k + |AssetsSegment| + i];
      } else {
        assert tail[i] == more[n + k + |AssetsSegment| + i - |path|];
      }
    }
  }

  /** A newline-free path has a newline-free fixed form that matches the pattern. */
  lemma FixAssetPathNoNewline(path: string)
    requires NoNewline(path)
    ensures NoNewline(FixAssetPath(path, LegacyPrefix))
    ensures MatchesAssetPattern(FixAssetPath(path, LegacyPrefix))
  {
    FixAssetPathMatches(path);
    var fixed := FixAssetPath(path, LegacyPrefix);
    if fixed != path {
      forall i | 0 <= i < |fixed|
        ensures fixed[i] != '\n'
      {
        if i >= |LegacyPrefix| {
          assert fixed[i] == path[i - |LegacyPrefix|];
        }
      }
    }
  }

  /** The token file name for a root: its '/'-separated parts joined with '_'. */
  function TokenFileName(root: string): string {
    Join("_", Split(root, '/'))
  }

  /**
   * The token file of a repository root, as `setupCredentialsForMigration`
   * builds it: the directory made to end in '/', then the file name of the
   * fixed root.
   */
  function TokenPath(tokenDir: string, root: string): string {
    CheckEnd(tokenDir, "/") + TokenFileName(FixAssetPath(root, LegacyPrefix))
  }

  /**
   * The token path is the directory ending in '/' followed by the fixed root
   * with every '/' turned into '_', so the file name holds no '/'.
   */
  lemma TokenPathShape(tokenDir: string, root: string)
    ensures var dir := CheckEnd(tokenDir, "/");
            var fixed := FixAssetPath(root, LegacyPrefix);
            var name := TokenPath(tokenDir, root)[|dir|..];
            && StartsWith(TokenPath(tokenDir, root), dir)
            && EndsWith(dir, "/")
            && |name| == |fixed|
            && (forall i :: 0 <= i < |name| ==> name[i] == if fixed[i] == '/' then '_' else fixed[i])
            && '/' !in name
  {
    var fixed := FixAssetPath(root, LegacyPrefix);
    JoinSplit(fixed, '/', '_');
    var dir := CheckEnd(tokenDir, "/");
    var name := TokenPath(tokenDir, root)[|dir|..];
    assert name == ReplaceChar(fixed, '/', '_');
  }

  /**
   * Two different roots can share one token file.  With `users/a_b` as the
   * source root and `users/a/b` as the destination root, both accounts are
   * given the same file, so once the first one is stored the existence
   * check of `setupCredentialsForMigration` skips authenticating the second.
   */
  lemma TokenPathNotInjective()
    ensures TokenPath("c:/tokens", "users/a_b") == TokenPath("c:/tokens", "users/a/b")
  {
    assert !MatchesAssetPattern("users/a_b");
    assert !MatchesAssetPattern("users/a/b");
    TokenPathShape("c:/tokens", "users/a_b");
    TokenPathShape("c:/tokens", "users/a/b");
  }
}
