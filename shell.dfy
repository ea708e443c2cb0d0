/**
 * The per-line front end of the shell's main loop: the line is tokenized
 * with strtok on " \n", an argument vector is built, the command is located,
 * and one of the builtins, a "not found" report or an external run (with a
 * repeat count) is chosen.
 *
 * As written, the first strtok on the line buffer writes a NUL over the
 * delimiter that ends the first token, and the copy made from the token's
 * start with strcpy stops there; the argument vector is then built from that
 * copy, so it always holds exactly one word.
 */
module Shell {
  import opened Options
  import opened CStrings
  import opened Numeric
  import opened Resolve

  /** The delimiters the shell tokenizes on. */
  const LineDelims: set<char> := {' ', '\n'}

  /** What one input line makes the shell do. */
  datatype Action =
    | Skip                                               // nothing but delimiters: prompt again
    | Exit                                               // `exit`: leave the loop
    | PrintEnv                                           // `env`: list the environment
    | Copy(src: CString, dst: CString)                   // `cp SRC DST`
    | NotFound(name: CString)                            // report "Command not found"
    | Run(program: CString, argv: seq<CString>, times: int)  // fork and exec, `times` times

  /**
   * The repeat count of an external command: atoi of the second word, with
   * 0 read as 1; 1 when there is no second word.
   */
  function RepeatCount(argv: seq<CString>): (times: int)
    ensures times != 0
    ensures |argv| < 2 ==> times == 1
    ensures |argv| >= 2 ==> times == Atoi(argv[1]) || (times == 1 && Atoi(argv[1]) == 0)
  {
    if |argv| >= 2 then
      var n := Atoi(argv[1]);
      if n == 0 then 1 else n
    else 1
  }

  /** How many times `for (j = 0; j < times; j++)` runs its body. */
  function Iterations(times: int): (n: nat)
    ensures n >= times && (n == 0 || n == times)
  {
    if times > 0 then times else 0
  }

  /** The commands handled in-process; `cp` only with a source and a destination. */
  predicate IsBuiltin(argv: seq<CString>)
    requires argv != []
    ensures IsBuiltin(argv) ==> argv[0] in {"exit", "env", "cp"}
  {
    argv[0] == "exit" || argv[0] == "env" || (argv[0] == "cp" && |argv| >= 3)
  }

  /** The if-else chain after the command has been located. */
  function Dispatch(argv: seq<CString>, location: Option<CString>): (a: Action)
    requires argv != []
    ensures a.Exit? <==> argv[0] == "exit"
    ensures a.PrintEnv? <==> argv[0] == "env"
    ensures a.Copy? <==> argv[0] == "cp" && |argv| >= 3
    ensures a.Copy? ==> a.src == argv[1] && a.dst == argv[2]
    ensures a.NotFound? <==> !IsBuiltin(argv) && location.None?
    ensures a.NotFound? ==> a.name == argv[0]
    ensures a.Run? <==> !IsBuiltin(argv) && location.Some?
    ensures a.Run? ==> a.program == location.value && a.argv == argv && a.times == RepeatCount(argv)
    ensures !a.Skip?
  {
    if argv[0] == "exit" then Exit
    else if argv[0] == "env" then PrintEnv
    else if argv[0] == "cp" && |argv| >= 3 then Copy(argv[1], argv[2])
    else if location.None? then NotFound(argv[0])
    else Run(location.value, argv, RepeatCount(argv))
  }

  /** The argument vector main builds from a line (getline's bytes, read as a C string). */
  function LineArgv(line: string): (argv: seq<CString>)
    ensures |argv| <= 1
  {
    var tokens := Split(UpToNul(line), LineDelims);
    if tokens == [] then [] else [tokens[0]]
  }

  /** Everything the shell decides about one line. */
  function LineAction(line: string, path: Option<CString>,
                      accessX: string -> bool, regOwnerExec: string -> bool): (a: Action)
    ensures a.Skip? <==> LineArgv(line) == []
    ensures !a.Copy?
  {
    var argv := LineArgv(line);
    if argv == [] then Skip
    else Dispatch(argv, Locate(path, argv[0], accessX, regOwnerExec))
  }

  /** A line is skipped exactly when it holds nothing but spaces and newlines (up to its first NUL). */
  lemma SkipIffBlank(line: string, path: Option<CString>,
                     accessX: string -> bool, regOwnerExec: string -> bool)
    ensures LineAction(line, path, accessX, regOwnerExec) == Skip <==>
      forall k :: 0 <= k < |UpToNul(line)| ==> UpToNul(line)[k] in LineDelims
  {
    var s := UpToNul(line);
    SplitEmptyIff(s, LineDelims);
    var argv := LineArgv(line);
    if argv != [] {
      var a := Dispatch(argv, Locate(path, argv[0], accessX, regOwnerExec));
      assert !a.Skip?;
      assert LineAction(line, path, accessX, regOwnerExec) == a;
      assert Split(s, LineDelims) != [];
      assert !(forall k :: 0 <= k < |s| ==> s[k] in LineDelims);
    } else {
      assert Split(s, LineDelims) == [];
    }
  }

  /**
   * Otherwise the argument vector is a single word: the first maximal run
   * of characters other than space and newline.
   */
  lemma ArgvIsFirstWord(line: string)
    requires LineArgv(line) != []
    ensures |LineArgv(line)| == 1
    ensures IsToken(LineArgv(line)[0], LineDelims)
    ensures exists i: nat :: IsFirstRun(UpToNul(line), i, LineArgv(line)[0], LineDelims)
  {
    var s := UpToNul(line);
    SplitTokens(s, LineDelims);
    SplitFirstRun(s, LineDelims);
  }

  /**
   * From real input, `cp` is never dispatched as a copy and an external
   * command always runs once: the argument vector has no second word.
   */
  lemma LineNeverCopiesOrRepeats(line: string, path: Option<CString>,
                                 accessX: string -> bool, regOwnerExec: string -> bool)
    ensures !LineAction(line, path, accessX, regOwnerExec).Copy?
    ensures LineAction(line, path, accessX, regOwnerExec).Run? ==>
      LineAction(line, path, accessX, regOwnerExec).times == 1
      && LineAction(line, path, accessX, regOwnerExec).argv == LineArgv(line)
  {
  }

  /**
   * A builtin name shadows any executable of the same name: the action does
   * not depend on where (or whether) the command was found.
   */
  lemma BuiltinShadowsExecutable(argv: seq<CString>, location: Option<CString>, location': Option<CString>)
    requires argv != [] && IsBuiltin(argv)
    ensures Dispatch(argv, location) == Dispatch(argv, location')
    ensures !Dispatch(argv, location).Run? && !Dispatch(argv, location).NotFound?
  {
  }

  /** "cp" without both a source and a destination is an ordinary command name. */
  lemma ShortCpIsOrdinary(argv: seq<CString>, location: Option<CString>)
    requires argv != [] && argv[0] == "cp" && |argv| < 3
    ensures Dispatch(argv, location) ==
      if location.None? then NotFound("cp") else Run(location.value, argv, RepeatCount(argv))
  {
  }

  /**
   * The repeat count read from a numeric second word: "3" and "3x" give 3,
   * "0" gives 1, and "-2" gives -2, for which the loop runs no time at all.
   */
  lemma RepeatCountOfNumber(command: CString, n: nat, rest: CString, more: seq<CString>)
    requires rest == [] || rest[0] !in Digits
    ensures RepeatCount([command, Decimal(n) + rest] + more) == if n == 0 then 1 else n
    ensures n > 0 ==> RepeatCount([command, "-" + Decimal(n) + rest] + more) == -(n as int)
    ensures n > 0 ==> Iterations(RepeatCount([command, "-" + Decimal(n) + rest] + more)) == 0
  {
    AtoiDecimal(n, rest);
  }

  /** A second word that does not start like a number ("abc") gives a count of 1. */
  lemma RepeatCountOfWord(command: CString, word: CString, more: seq<CString>)
    requires word == [] || (word[0] !in Spaces && word[0] !in Digits && word[0] != '-' && word[0] != '+')
    ensures RepeatCount([command, word] + more) == 1
  {
    AtoiNotANumber(word);
  }

  /**
   * The execution loop: execute_command runs `times` times in sequence, and
   * every child execs the located program with the full argument vector
   * (the count word included) and an empty environment.
   */
  method ExecuteRepeatedly(program: CString, argv: seq<CString>, times: int)
    returns (launched: seq<Launch>)
    ensures |launched| == Iterations(times)
    ensures forall j :: 0 <= j < |launched| ==> launched[j] == Launch(program, argv, [])
  {
    launched := [];
    var j := 0;
    while j < times
      invariant 0 <= j && j == |launched|
      invariant j <= Iterations(times)
      invariant forall i :: 0 <= i < j ==> launched[i] == Launch(program, argv, [])
    {
      launched := launched + [Launch(program, argv, [])];
      j := j + 1;
    }
  }

  /** One child process: execve(program, argv, envp). */
  datatype Launch = Launch(program: CString, argv: seq<CString>, envp: seq<CString>)

  /**
   * The argv fill loop: strtok over the copied buffer, each token appended
   * in order until strtok returns NULL.
   */
  method BuildArgv(buf: array<char>) returns (argv: seq<CString>)
    requires Terminated(buf[..], 0)
    modifies buf
    ensures argv == Split(CStringAt(old(buf[..]), 0), LineDelims)
  {
    ghost var all := Split(CStringAt(buf[..], 0), LineDelims);
    argv := [];
    var token, next := NextToken(buf, 0, LineDelims);
    ghost var pending := all;
    while token.Some?
      invariant Terminated(buf[..], next)
      invariant all == argv + pending
      invariant token.None? <==> pending == []
      invariant token.Some? ==>
        token.value == pending[0] && Split(CStringAt(buf[..], next), LineDelims) == pending[1..]
      decreases |pending|
    {
      assert pending == [token.value] + pending[1..];
      argv := argv + [token.value];
      pending := pending[1..];
      token, next := NextToken(buf, next, LineDelims);
    }
    assert argv + [] == argv;
  }

  /** The first token of s, read back as a C string and split again, is itself alone. */
  lemma WordSplitsToItself(s: CString, t: CString, delims: set<char>)
    requires Split(s, delims) != [] && t == Split(s, delims)[0]
    ensures UpToNul(t) == t && Split(t, delims) == [t]
  {
    SplitTokens(s, delims);
    SplitToken(t, [], delims);
    assert t + [] == t;
    UpToNulSplit(t, []);
  }

  /**
   * One iteration of main's loop after getline: tokenize, build argv,
   * locate argv[0], dispatch.
   */
  method ProcessLine(line: string, path: Option<CString>,
                     accessX: string -> bool, regOwnerExec: string -> bool)
    returns (action: Action)
    ensures action == LineAction(line, path, accessX, regOwnerExec)
  {
    var buff := NewBuffer(line);
    var trimmed, start, next := Strtok(buff, 0, LineDelims);
    if trimmed.None? {
      return Skip;
    }
    // strcpy(buff_copy, trimmed_input) copies up to the NUL strtok just wrote
    var buffCopy := NewBuffer(CStringAt(buff[..], start));
    var argv := BuildArgv(buffCopy);
    WordSplitsToItself(UpToNul(line), trimmed.value, LineDelims);
    var location := GetLocation(path, argv[0], accessX, regOwnerExec);
    action := Dispatch(argv, location);
  }
}
