/** The command-line parser of the FTP client (ftp/ftp_client.cpp):
    flags anywhere on the line, then an operation and its one or two
    paths or URLs. */
module Ftp {

  /** `valid_commands`: each operation and how many positional arguments
      its command line has, the operation itself included. */
  const Arity: map<string, nat> := map["ls" := 2, "mkdir" := 2, "rm" := 2, "rmdir" := 2, "cp" := 3, "mv" := 3]

  predicate IsHelpFlag(a: string)
  {
    a == "-h" || a == "--help"
  }

  predicate IsVerboseFlag(a: string)
  {
    a == "-v" || a == "--verbose"
  }

  /** An argument the parser keeps as a positional. */
  predicate IsPositional(a: string)
  {
    !IsHelpFlag(a) && !IsVerboseFlag(a)
  }

  /** The reference parameters of parse_command (`help`, `operation`,
      `param1`, `param2`) together with the file-level `verbose` flag. */
  datatype Command = Command(help: bool, verbose: bool, operation: string, param1: string, param2: string)

  /** What the scanning loop has gathered: the two flags and the
      positional arguments in order. */
  datatype Scan = Scan(help: bool, verbose: bool, arguments: seq<string>)

  /** The scanning loop over args: a help flag sets `help`, a verbose flag
      sets `verbose`, anything else is appended to `arguments`. */
  function ScanArgs(args: seq<string>, help: bool, verbose: bool): (r: Scan)
    ensures |r.arguments| <= |args|
    ensures forall j :: 0 <= j < |r.arguments| ==> IsPositional(r.arguments[j])
    decreases |args|
  {
    if |args| == 0 then Scan(help, verbose, [])
    else
      var s := ScanArgs(args[..|args| - 1], help, verbose);
      var a := args[|args| - 1];
      if IsHelpFlag(a) then s.(help := true)
      else if IsVerboseFlag(a) then s.(verbose := true)
      else s.(arguments := s.arguments + [a])
  }

  /** The loop ends with `help` set exactly when it was set on entry or
      some argument is a help flag, and likewise for `verbose`. */
  lemma {:induction false} ScanFlags(args: seq<string>, help: bool, verbose: bool)
    ensures var r := ScanArgs(args, help, verbose);
      (r.help <==> help || exists i :: 0 <= i < |args| && IsHelpFlag(args[i]))
      && (r.verbose <==> verbose || exists i :: 0 <= i < |args| && IsVerboseFlag(args[i]))
    decreases |args|
  {
    if |args| > 0 {
      var init := args[..|args| - 1];
      ScanFlags(init, help, verbose);
      assert forall i :: 0 <= i < |init| ==> init[i] == args[i];
    }
  }

  /** Every positional the loop keeps is one of the arguments. */
  lemma {:induction false} ScanMembers(args: seq<string>, help: bool, verbose: bool)
    ensures forall x :: x in ScanArgs(args, help, verbose).arguments ==> x in args
    decreases |args|
  {
    if |args| > 0 {
      var init := args[..|args| - 1];
      ScanMembers(init, help, verbose);
      var prior := ScanArgs(init, help, verbose).arguments;
      var r := ScanArgs(args, help, verbose).arguments;
      assert r == prior || r == prior + [args[|args| - 1]];
      forall x | x in r
        ensures x in args
      {
        if x in prior {
          var j :| 0 <= j < |init| && init[j] == x;
          assert args[j] == x;
        }
      }
    }
  }

  /** The arguments that are not flags, in their original order. */
  function Positionals(args: seq<string>): seq<string>
  {
    if |args| == 0 then []
    else (if IsPositional(args[0]) then [args[0]] else []) + Positionals(args[1..])
  }

  /** The scanning loop keeps exactly the positionals, in order, whatever
      the incoming flags. */
  lemma {:induction false} ScanKeepsPositionals(args: seq<string>, help: bool, verbose: bool)
    ensures ScanArgs(args, help, verbose).arguments == Positionals(args)
    decreases |args|
  {
    if |args| > 0 {
      var init, last := args[..|args| - 1], args[|args| - 1];
      ScanKeepsPositionals(init, help, verbose);
      PositionalsSnoc(init, last);
      assert init + [last] == args;
    }
  }

  lemma {:induction false} PositionalsSnoc(a: seq<string>, x: string)
    ensures Positionals(a + [x]) == Positionals(a) + (if IsPositional(x) then [x] else [])
    decreases |a|
  {
    if |a| == 0 {
      assert [] + [x] == [x];
    } else {
      assert (a + [x])[1..] == a[1..] + [x];
      PositionalsSnoc(a[1..], x);
    }
  }

  /** The arguments after the program name, argv[1..]. */
  function AfterProgram(argv: seq<string>): seq<string>
  {
    if |argv| == 0 then [] else argv[1..]
  }

  lemma AfterProgramIndex(argv: seq<string>)
    ensures forall i :: 1 <= i < |argv| ==> AfterProgram(argv)[i - 1] == argv[i]
    ensures |argv| >= 1 ==> AfterProgram(argv) == argv[1..]
    ensures (exists i :: 1 <= i < |argv| && IsHelpFlag(argv[i]))
            <==> exists i :: 0 <= i < |AfterProgram(argv)| && IsHelpFlag(AfterProgram(argv)[i])
    ensures (exists i :: 1 <= i < |argv| && IsVerboseFlag(argv[i]))
            <==> exists i :: 0 <= i < |AfterProgram(argv)| && IsVerboseFlag(AfterProgram(argv)[i])
  {
    var args := AfterProgram(argv);
    if (exists i :: 0 <= i < |args| && IsHelpFlag(args[i])) {
      var i :| 0 <= i < |args| && IsHelpFlag(args[i]);
      assert argv[i + 1] == args[i];
    }
    if (exists i :: 0 <= i < |args| && IsVerboseFlag(args[i])) {
      var i :| 0 <= i < |args| && IsVerboseFlag(args[i]);
      assert argv[i + 1] == args[i];
    }
  }

  /** The positionals name a known operation with the right number of
      parameters. */
  predicate WellFormed(arguments: seq<string>)
  {
    |arguments| >= 2 && arguments[0] in Arity && Arity[arguments[0]] == |arguments|
  }

  /** parse_command: true when help was asked for (or already set), and
      then nothing else is assigned; false when the positionals are not a
      known operation with its exact number of parameters, and then
      nothing else is assigned either; otherwise true, with the operation
      and its parameters assigned (`param2` empty for a one-parameter
      operation). `verbose` is set by a verbose flag in every case. */
  function ParseCommand(argv: seq<string>, st: Command): (r: (bool, Command))
    ensures r.1.help <==> st.help || exists i :: 1 <= i < |argv| && IsHelpFlag(argv[i])
    ensures r.1.verbose <==> st.verbose || exists i :: 1 <= i < |argv| && IsVerboseFlag(argv[i])
    ensures r.1.help ==> r.0
    ensures !r.0 || r.1.help ==>
      r.1.operation == st.operation && r.1.param1 == st.param1 && r.1.param2 == st.param2
    ensures r.0 && !r.1.help ==>
      r.1.operation in Arity && IsPositional(r.1.param1)
      && r.1.operation in AfterProgram(argv) && r.1.param1 in AfterProgram(argv)
      && (Arity[r.1.operation] == 2 ==> r.1.param2 == "")
      && (Arity[r.1.operation] == 3 ==> IsPositional(r.1.param2) && r.1.param2 in AfterProgram(argv))
  {
    var args := AfterProgram(argv);
    var s := ScanArgs(args, st.help, st.verbose);
    ScanFlags(args, st.help, st.verbose);
    ScanMembers(args, st.help, st.verbose);
    AfterProgramIndex(argv);
    var st' := st.(help := s.help, verbose := s.verbose);
    if s.help then (true, st')
    else if !WellFormed(s.arguments) then (false, st')
    else
      var p := s.arguments;
      (true, st'.(operation := p[0], param1 := p[1], param2 := if |p| > 2 then p[2] else ""))
  }

  // ----- Lemmas

  /** The positionals decide the rest: the call succeeds exactly when help
      is set or the positionals name a known operation with its exact
      number of parameters, and then the operation and its parameters are
      the positionals in order. */
  lemma ParseByPositionals(argv: seq<string>, st: Command)
    ensures var r := ParseCommand(argv, st);
      var p := Positionals(AfterProgram(argv));
      (r.0 <==> r.1.help || WellFormed(p))
      && (r.0 && !r.1.help ==>
            r.1.operation == p[0] && r.1.param1 == p[1]
            && r.1.param2 == (if Arity[p[0]] == 3 then p[2] else ""))
  {
    ScanKeepsPositionals(AfterProgram(argv), st.help, st.verbose);
  }

  /** The positionals of a concatenation are the positionals of each part. */
  lemma {:induction false} ScanAppend(a: seq<string>, b: seq<string>, help: bool, verbose: bool)
    ensures ScanArgs(a + b, help, verbose).arguments
            == ScanArgs(a, help, verbose).arguments + ScanArgs(b, help, verbose).arguments
    decreases |b|
  {
    if |b| == 0 {
      assert a + b == a;
    } else {
      var b' := b[..|b| - 1];
      assert (a + b)[..|a + b| - 1] == a + b';
      ScanAppend(a, b', help, verbose);
      ScanArgsFlags(a + b', help, verbose);
      ScanArgsFlags(a, help, verbose);
      ScanArgsFlags(b', help, verbose);
    }
  }

  /** The positionals do not depend on the incoming flags. */
  lemma {:induction false} ScanArgsFlags(args: seq<string>, help: bool, verbose: bool)
    ensures ScanArgs(args, help, verbose).arguments == ScanArgs(args, false, false).arguments
    decreases |args|
  {
    if |args| > 0 {
      ScanArgsFlags(args[..|args| - 1], help, verbose);
    }
  }

  /** Positional arguments alone scan to themselves. */
  lemma {:induction false} ScanPositionals(args: seq<string>, help: bool, verbose: bool)
    requires forall i :: 0 <= i < |args| ==> IsPositional(args[i])
    ensures ScanArgs(args, help, verbose) == Scan(help, verbose, args)
    decreases |args|
  {
    if |args| > 0 {
      ScanPositionals(args[..|args| - 1], help, verbose);
      assert args[..|args| - 1] + [args[|args| - 1]] == args;
    }
  }

  /** The command line a user types for an operation and its parameters. */
  function CommandLine(program: string, op: string, p1: string, p2: string): (argv: seq<string>)
    requires op in Arity
    ensures |argv| == 1 + Arity[op]
  {
    if Arity[op] == 2 then [program, op, p1] else [program, op, p1, p2]
  }

  /** Round trip: parsing the command line typed for a known operation
      with non-flag parameters gives back the operation and parameters. */
  lemma ParseCommandLine(program: string, op: string, p1: string, p2: string, st: Command)
    requires op in Arity && IsPositional(p1) && IsPositional(p2) && !st.help
    ensures var r := ParseCommand(CommandLine(program, op, p1, p2), st);
      r.0 && !r.1.help && r.1.verbose == st.verbose
      && r.1.operation == op && r.1.param1 == p1
      && r.1.param2 == (if Arity[op] == 3 then p2 else "")
  {
    var argv := CommandLine(program, op, p1, p2);
    assert IsPositional(op);
    ScanPositionals(AfterProgram(argv), st.help, st.verbose);
  }

  /** A verbose flag anywhere after the program name only sets `verbose`:
      the outcome and every other output are as without it. */
  lemma VerboseAnywhere(argv: seq<string>, i: nat, flag: string, st: Command)
    requires 1 <= i <= |argv| && IsVerboseFlag(flag)
    ensures var with := ParseCommand(argv[..i] + [flag] + argv[i..], st);
      var without := ParseCommand(argv, st);
      with.0 == without.0 && with.1 == without.1.(verbose := true)
  {
    var argv' := argv[..i] + [flag] + argv[i..];
    var a, b := argv[1..i], argv[i..];
    assert AfterProgram(argv) == a + b;
    assert AfterProgram(argv') == a + [flag] + b;
    ScanAppend(a + [flag], b, st.help, st.verbose);
    ScanAppend(a, [flag], st.help, st.verbose);
    ScanAppend(a, b, st.help, st.verbose);
    assert argv'[i] == flag;
    HelpUnchanged(argv, i, flag, st);
  }

  lemma HelpUnchanged(argv: seq<string>, i: nat, flag: string, st: Command)
    requires 1 <= i <= |argv| && IsVerboseFlag(flag)
    ensures var argv' := argv[..i] + [flag] + argv[i..];
      (exists j :: 1 <= j < |argv'| && IsHelpFlag(argv'[j])) <==> (exists j :: 1 <= j < |argv| && IsHelpFlag(argv[j]))
  {
    var argv' := argv[..i] + [flag] + argv[i..];
    forall j | 1 <= j < |argv| && IsHelpFlag(argv[j])
      ensures IsHelpFlag(argv'[if j < i then j else j + 1])
    {
    }
    forall j | 1 <= j < |argv'| && IsHelpFlag(argv'[j])
      ensures j != i && IsHelpFlag(argv[if j < i then j else j - 1])
    {
    }
  }

  /** A help flag anywhere after the program name makes the call succeed
      without assigning the operation or its parameters. */
  lemma HelpWins(argv: seq<string>, i: nat, st: Command)
    requires 1 <= i < |argv| && IsHelpFlag(argv[i])
    ensures var r := ParseCommand(argv, st);
      r.0 && r.1.help && r.1.operation == st.operation && r.1.param1 == st.param1 && r.1.param2 == st.param2
  {
  }

  /** An operation given the wrong number of parameters is rejected. */
  lemma WrongArity(program: string, op: string, params: seq<string>, st: Command)
    requires op in Arity && IsPositional(op) && |params| + 1 != Arity[op] && !st.help
    requires forall i :: 0 <= i < |params| ==> IsPositional(params[i])
    ensures !ParseCommand([program, op] + params, st).0
  {
    var argv := [program, op] + params;
    assert AfterProgram(argv) == [op] + params;
    ScanPositionals([op] + params, st.help, st.verbose);
  }
}
