/**
 * get_location: turning a command name into the path of an executable.
 * The environment and the file system are parameters: `path` is what
 * getenv("PATH") returns (None for NULL), `accessX(p)` stands for
 * access(p, X_OK) == 0, and `regOwnerExec(p)` for a successful stat of p
 * that reports a regular file with the owner-execute bit set.
 */
module Resolve {
  import opened Options
  import opened CStrings

  const PathSep: char := ':'

  /** The directories strtok(path_copy, ":") yields, left to right; empty fields are dropped. */
  function SearchDirs(path: CString): seq<CString>
  {
    Split(path, {PathSep})
  }

  /** The candidate path built for a directory: dir, then "/", then the command. */
  function Candidate(dir: CString, command: CString): (c: CString)
    ensures |c| + 1 == |dir| + |command| + 2
    ensures c[..|dir|] == dir && c[|dir|] == '/' && c[|dir| + 1..] == command
  {
    dir + "/" + command
  }

  /** The first candidate, in directory order, that access(X_OK) accepts. */
  function FirstMatch(dirs: seq<CString>, command: CString, accessX: string -> bool): (r: Option<CString>)
    ensures r.Some? ==> accessX(r.value)
    ensures dirs == [] ==> r.None?
  {
    if dirs == [] then None
    else if accessX(Candidate(dirs[0], command)) then Some(Candidate(dirs[0], command))
    else FirstMatch(dirs[1..], command, accessX)
  }

  /** The current-directory check: the command itself, if stat finds an owner-executable regular file. */
  function CwdFallback(command: CString, regOwnerExec: string -> bool): (r: Option<CString>)
    ensures r.None? <==> !regOwnerExec(command)
    ensures r.Some? ==> r.value == command
  {
    if regOwnerExec(command) then Some(command) else None
  }

  /** k is the first directory whose candidate is accessible. */
  predicate IsFirstHit(dirs: seq<CString>, k: nat, command: CString, accessX: string -> bool)
  {
    && k < |dirs| && accessX(Candidate(dirs[k], command))
    && forall j :: 0 <= j < k ==> !accessX(Candidate(dirs[j], command))
  }

  /** What get_location returns. */
  function Locate(path: Option<CString>, command: CString,
                  accessX: string -> bool, regOwnerExec: string -> bool): (r: Option<CString>)
    ensures path.None? ==> r.None?
    ensures r.Some? ==>
      || (r.value == command && regOwnerExec(command))
      || exists k: nat :: IsFirstHit(SearchDirs(path.value), k, command, accessX)
                     && r.value == Candidate(SearchDirs(path.value)[k], command)
    ensures r.None? <==>
      || path.None?
      || (!regOwnerExec(command)
          && forall k :: 0 <= k < |SearchDirs(path.value)| ==>
               !accessX(Candidate(SearchDirs(path.value)[k], command)))
  {
    match path
    case None => None
    case Some(p) =>
      FirstMatchSound(SearchDirs(p), command, accessX);
      FirstMatchNone(SearchDirs(p), command, accessX);
      if |p| == 0 then
        assert SearchDirs(p) == [];
        CwdFallback(command, regOwnerExec)
      else
        match FirstMatch(SearchDirs(p), command, accessX)
        case Some(c) => Some(c)
        case None => CwdFallback(command, regOwnerExec)
  }

  /** A result of the search is the candidate of the first accessible directory. */
  lemma {:induction false} FirstMatchSound(dirs: seq<CString>, command: CString, accessX: string -> bool)
    ensures FirstMatch(dirs, command, accessX).Some? ==>
      exists k: nat :: IsFirstHit(dirs, k, command, accessX)
                  && FirstMatch(dirs, command, accessX).value == Candidate(dirs[k], command)
  {
    if dirs != [] && !accessX(Candidate(dirs[0], command)) {
      FirstMatchSound(dirs[1..], command, accessX);
      if FirstMatch(dirs[1..], command, accessX).Some? {
        var k: nat :| IsFirstHit(dirs[1..], k, command, accessX)
                 && FirstMatch(dirs[1..], command, accessX).value == Candidate(dirs[1..][k], command);
        assert forall j :: 1 <= j < k + 1 ==> dirs[j] == dirs[1..][j - 1];
        assert IsFirstHit(dirs, k + 1, command, accessX);
      }
    } else if dirs != [] {
      assert IsFirstHit(dirs, 0, command, accessX);
    }
  }

  /** The first accessible directory's candidate is the result, whatever comes after it. */
  lemma {:induction false} FirstMatchFirstHit(dirs: seq<CString>, k: nat, command: CString, accessX: string -> bool)
    requires IsFirstHit(dirs, k, command, accessX)
    ensures FirstMatch(dirs, command, accessX) == Some(Candidate(dirs[k], command))
  {
    if k > 0 {
      assert !accessX(Candidate(dirs[0], command));
      assert forall j :: 0 <= j < k - 1 ==> dirs[1..][j] == dirs[j + 1];
      FirstMatchFirstHit(dirs[1..], k - 1, command, accessX);
    }
  }

  /** The search finds nothing exactly when no candidate is accessible. */
  lemma {:induction false} FirstMatchNone(dirs: seq<CString>, command: CString, accessX: string -> bool)
    ensures FirstMatch(dirs, command, accessX).None? <==>
      forall k :: 0 <= k < |dirs| ==> !accessX(Candidate(dirs[k], command))
  {
    if dirs != [] && !accessX(Candidate(dirs[0], command)) {
      FirstMatchNone(dirs[1..], command, accessX);
      assert forall k :: 1 <= k < |dirs| ==> dirs[k] == dirs[1..][k - 1];
    }
  }

  /**
   * Short circuit: once a directory matches, later directories are never
   * consulted; if none of the first ones matches, the search continues with
   * the rest.
   */
  lemma {:induction false} FirstMatchAppend(a: seq<CString>, b: seq<CString>, command: CString, accessX: string -> bool)
    ensures FirstMatch(a + b, command, accessX) ==
      if FirstMatch(a, command, accessX).Some? then FirstMatch(a, command, accessX)
      else FirstMatch(b, command, accessX)
  {
    if a == [] {
      assert a + b == b;
    } else {
      assert (a + b)[0] == a[0] && (a + b)[1..] == a[1..] + b;
      FirstMatchAppend(a[1..], b, command, accessX);
    }
  }

  /**
   * If two directories both hold an accessible candidate, the earlier one
   * wins: the result comes from a directory no later than i.
   */
  lemma EarlierDirectoryWins(path: CString, i: nat, command: CString,
                             accessX: string -> bool, regOwnerExec: string -> bool)
    requires i < |SearchDirs(path)| && accessX(Candidate(SearchDirs(path)[i], command))
    ensures exists k: nat :: (k <= i && IsFirstHit(SearchDirs(path), k, command, accessX) &&
      Locate(Some(path), command, accessX, regOwnerExec) == Some(Candidate(SearchDirs(path)[k], command)))
  {
    var dirs := SearchDirs(path);
    FirstMatchNone(dirs, command, accessX);
    FirstMatchSound(dirs, command, accessX);
    var k: nat :| IsFirstHit(dirs, k, command, accessX)
             && FirstMatch(dirs, command, accessX).value == Candidate(dirs[k], command);
    assert path != [] by { assert dirs != []; }
  }

  /**
   * With an empty PATH no directory is tried: the answer depends only on the
   * current-directory check.
   */
  lemma EmptyPathChecksOnlyCwd(command: CString, accessX: string -> bool, accessX': string -> bool,
                               regOwnerExec: string -> bool)
    ensures Locate(Some(""), command, accessX, regOwnerExec) == CwdFallback(command, regOwnerExec)
    ensures Locate(Some(""), command, accessX, regOwnerExec) == Locate(Some(""), command, accessX', regOwnerExec)
  {
  }

  /**
   * The result depends on the PATH value only through the directories it
   * lists: the special case for an empty PATH agrees with the general search.
   */
  lemma SameDirectoriesSameResult(p: CString, q: CString, command: CString,
                                  accessX: string -> bool, regOwnerExec: string -> bool)
    requires SearchDirs(p) == SearchDirs(q)
    ensures Locate(Some(p), command, accessX, regOwnerExec) == Locate(Some(q), command, accessX, regOwnerExec)
  {
    assert SearchDirs([]) == [];
  }

  /** A PATH made only of colons, like the empty one, yields no directory and falls back to the current directory. */
  lemma OnlyColonsActsAsEmpty(path: CString, command: CString,
                              accessX: string -> bool, regOwnerExec: string -> bool)
    requires forall k :: 0 <= k < |path| ==> path[k] == PathSep
    ensures Locate(Some(path), command, accessX, regOwnerExec) == CwdFallback(command, regOwnerExec)
  {
    SplitEmptyIff(path, {PathSep});
    SameDirectoriesSameResult(path, "", command, accessX, regOwnerExec);
  }

  /** Empty PATH fields contribute nothing: "a::b" searches like "a:b". */
  lemma DoubledColonIgnored(a: CString, b: CString, command: CString,
                            accessX: string -> bool, regOwnerExec: string -> bool)
    ensures Locate(Some(a + "::" + b), command, accessX, regOwnerExec)
         == Locate(Some(a + ":" + b), command, accessX, regOwnerExec)
  {
    SplitDoubledDelim(a, PathSep, b, {PathSep});
    assert a + "::" + b == a + [PathSep, PathSep] + b;
    assert a + ":" + b == a + [PathSep] + b;
    SameDirectoriesSameResult(a + "::" + b, a + ":" + b, command, accessX, regOwnerExec);
  }

  /** A leading colon contributes nothing: ":b" searches like "b". */
  lemma LeadingColonIgnored(b: CString, command: CString,
                            accessX: string -> bool, regOwnerExec: string -> bool)
    ensures Locate(Some(":" + b), command, accessX, regOwnerExec)
         == Locate(Some(b), command, accessX, regOwnerExec)
  {
    SplitSkipDelim(PathSep, b, {PathSep});
    assert ":" + b == [PathSep] + b;
    SameDirectoriesSameResult(":" + b, b, command, accessX, regOwnerExec);
  }

  /** A trailing colon contributes nothing: "a:" searches like "a". */
  lemma TrailingColonIgnored(a: CString, command: CString,
                             accessX: string -> bool, regOwnerExec: string -> bool)
    ensures Locate(Some(a + ":"), command, accessX, regOwnerExec)
         == Locate(Some(a), command, accessX, regOwnerExec)
  {
    var sep := {PathSep};
    assert Split([], sep) == [];
    SplitConcat(a, PathSep, [], sep);
    assert a + ":" == a + [PathSep] + [];
    assert Split(a + [PathSep] + [], sep) == Split(a, sep);
    SameDirectoriesSameResult(a + ":", a, command, accessX, regOwnerExec);
  }

  /**
   * A PATH written as directories joined by colons is searched in exactly
   * that order: the result is the first accessible candidate among them,
   * else the current-directory check.
   */
  lemma PathOfDirectories(dirs: seq<CString>, command: CString,
                          accessX: string -> bool, regOwnerExec: string -> bool)
    requires forall d <- dirs :: IsToken(d, {PathSep})
    ensures Locate(Some(Join(dirs, PathSep)), command, accessX, regOwnerExec) ==
      match FirstMatch(dirs, command, accessX)
      case Some(c) => Some(c)
      case None => CwdFallback(command, regOwnerExec)
  {
    SplitJoin(dirs, PathSep, {PathSep});
    if Join(dirs, PathSep) == [] {
      assert SearchDirs([]) == [];
    }
  }

  /**
   * With PATH "/bin:/usr/bin" and ls accessible only under /usr/bin, the
   * result is "/usr/bin/ls".
   */
  lemma SearchOrderExample(accessX: string -> bool, regOwnerExec: string -> bool)
    requires !accessX("/bin/ls") && accessX("/usr/bin/ls")
    ensures Locate(Some("/bin:/usr/bin"), "ls", accessX, regOwnerExec) == Some("/usr/bin/ls")
  {
    var dirs: seq<CString> := ["/bin", "/usr/bin"];
    assert IsToken("/bin", {PathSep}) && IsToken("/usr/bin", {PathSep});
    assert Join(dirs, PathSep) == "/bin:/usr/bin";
    PathOfDirectories(dirs, "ls", accessX, regOwnerExec);
    assert Candidate("/bin", "ls") == "/bin/ls";
    assert Candidate("/usr/bin", "ls") == "/usr/bin/ls";
    assert FirstMatch(dirs, "ls", accessX) == Some("/usr/bin/ls");
  }

  /**
   * The loop of get_location: strtok on ":" over the copied PATH, building
   * each directory's candidate and stopping at the first one access(X_OK)
   * accepts.
   */
  method SearchPath(pathCopy: array<char>, command: CString, accessX: string -> bool)
    returns (found: Option<CString>)
    requires Terminated(pathCopy[..], 0)
    modifies pathCopy
    ensures found == FirstMatch(SearchDirs(CStringAt(old(pathCopy[..]), 0)), command, accessX)
  {
    ghost var dirs := SearchDirs(CStringAt(pathCopy[..], 0));
    var token, next := NextToken(pathCopy, 0, {PathSep});
    ghost var pending := dirs;
    while token.Some?
      invariant Terminated(pathCopy[..], next)
      invariant token.None? <==> pending == []
      invariant token.Some? ==>
        token.value == pending[0] && Split(CStringAt(pathCopy[..], next), {PathSep}) == pending[1..]
      invariant FirstMatch(dirs, command, accessX) == FirstMatch(pending, command, accessX)
      decreases |pending|
    {
      var fullPath := Candidate(token.value, command);
      if accessX(fullPath) {
        return Some(fullPath);
      }
      assert FirstMatch(pending, command, accessX) == FirstMatch(pending[1..], command, accessX);
      pending := pending[1..];
      token, next := NextToken(pathCopy, next, {PathSep});
    }
    return None;
  }

  /**
   * get_location. The PATH value is duplicated into a NUL-terminated buffer
   * (strdup) and walked with strtok on ":"; each directory yields a
   * candidate, and the first one access(X_OK) accepts is returned at once.
   */
  method GetLocation(path: Option<CString>, command: CString,
                     accessX: string -> bool, regOwnerExec: string -> bool)
    returns (location: Option<CString>)
    ensures location == Locate(path, command, accessX, regOwnerExec)
  {
    if path.None? {
      return None;
    }
    var p := path.value;
    if |p| == 0 {
      if regOwnerExec(command) {
        return Some(command);
      }
      return None;
    }
    var pathCopy := NewBuffer(p);
    assert CStringAt(pathCopy[..], 0) == p by {
      UpToNulSplit(p, []);
      assert p + [] == p;
    }
    location := SearchPath(pathCopy, command, accessX);
    if location.Some? {
      return;
    }
    if regOwnerExec(command) {
      return Some(command);
    }
    return None;
  }
}
