/**
 * The argument interpreter of `main` (src/main.rs, lines 9-38) and `parse_arg`.
 * The token list is scanned left to right; the scan ends early on a help
 * token or on an iterations option whose value does not parse.
 */
module Cli {
  import opened Wrappers
  import opened RustInt

  /** The value of `iterations` before any option is seen: "not set". */
  const UNSET: i32 := -1

  datatype ArgError =
    | ParseFailed(kind: IntErrorKind)  // "Failed to parse iterations: ..."
    | InvalidArgument                  // "Invalid argument for parse_arg"

  /** How the scan of the command line ends; the exit code of each is given by `ExitCode`. */
  datatype Outcome =
    | Help                                        // usage on stdout, exit 0
    | BadArgument(error: ArgError)                // message on stderr, exit 1
    | Usage                                       // no files: usage on stdout, exit 1
    | Request(files: seq<string>, iterations: i32) // go on to compress the files

  function ExitCode(o: Outcome): (code: Option<int>)
    ensures code.None? <==> o.Request?
    ensures code == Some(0) <==> o == Help
    ensures code == Some(1) <==> o.BadArgument? || o == Usage
  {
    match o
    case Help => Some(0)
    case BadArgument(_) => Some(1)
    case Usage => Some(1)
    case Request(_, _) => None
  }

  predicate StartsWith(s: string, prefix: string) {
    |prefix| <= |s| && s[..|prefix|] == prefix
  }

  predicate IsShortOption(t: string) {
    StartsWith(t, "-i")
  }

  predicate IsLongOption(t: string) {
    StartsWith(t, "--iterations")
  }

  predicate IsOption(t: string) {
    IsShortOption(t) || IsLongOption(t)
  }

  predicate IsHelp(t: string) {
    t == "-h" || t == "--help"
  }

  /** The text glued to an option: everything after `-i` or after `--iterations`. */
  function OptionValueText(t: string): (v: string)
    requires IsOption(t)
    ensures IsShortOption(t) ==> t == "-i" + v
    ensures !IsShortOption(t) ==> t == "--iterations" + v
  {
    if IsShortOption(t) then t[2..] else t[12..]
  }

  /**
   * `parse_arg`: the value of an iterations option comes from the option's
   * own token only; a token that is no option is refused.
   */
  function ParseArg(arg: string): (r: Result<i32, ArgError>)
    ensures !IsOption(arg) ==> r == Err(InvalidArgument)
    ensures IsOption(arg) ==> (r.Ok? <==> IsNumeral(OptionValueText(arg)) && InI32(NumeralValue(OptionValueText(arg))))
    ensures r.Ok? ==> IsOption(arg) && r.value == NumeralValue(OptionValueText(arg))
  {
    if IsOption(arg) then
      ParseI32Means(OptionValueText(arg));
      match ParseI32(OptionValueText(arg))
      case Ok(v) => Ok(v)
      case Err(e) => Err(ParseFailed(e))
    else
      Err(InvalidArgument)
  }

  /**
   * The scan from position `index` on, with `iterations` and `files` as the
   * loop has left them; this is the loop of lines 15-33 followed by the
   * empty-list test of lines 35-38.
   */
  function ScanFrom(args: seq<string>, index: nat, iterations: i32, files: seq<string>): Outcome
    requires index <= |args|
    decreases |args| - index
  {
    if index == |args| then
      (if files == [] then Usage else Request(files, iterations))
    else
      var arg := args[index];
      if IsOption(arg) then
        match ParseArg(arg)
        case Err(e) => BadArgument(e)
        case Ok(v) => ScanFrom(args, index + 1, v, files)
      else if IsHelp(arg) then Help
      else if index > 0 then ScanFrom(args, index + 1, iterations, files + [arg])
      else ScanFrom(args, index + 1, iterations, files)
  }

  /** What `main` makes of its argument list (index 0 is the program name). */
  function Interpret(args: seq<string>): Outcome {
    ScanFrom(args, 0, UNSET, [])
  }

  /** The argument loop of `main`, as the source writes it: a mutable counter and a growing list. */
  method InterpretArgs(args: seq<string>) returns (outcome: Outcome)
    ensures outcome == Interpret(args)
  {
    var iterations: i32 := UNSET;
    var files: seq<string> := [];
    var index := 0;
    while index < |args|
      invariant 0 <= index <= |args|
      invariant ScanFrom(args, index, iterations, files) == Interpret(args)
    {
      var arg := args[index];
      if IsShortOption(arg) || IsLongOption(arg) {
        var parsed := ParseArg(arg);
        if parsed.Err? {
          return BadArgument(parsed.error);
        }
        iterations := parsed.value;
      } else if IsHelp(arg) {
        return Help;
      } else if index > 0 {
        files := files + [arg];
      }
      index := index + 1;
    }
    if files == [] {
      return Usage;
    }
    return Request(files, iterations);
  }

  // ----- A reference description of the scan, position by position -----

  /** A token that ends the scan at once: help, or an option whose value does not parse. */
  predicate Stops(t: string) {
    IsHelp(t) || (IsOption(t) && ParseArg(t).Err?)
  }

  function StopOutcome(t: string): Outcome
    requires Stops(t)
  {
    if IsOption(t) then BadArgument(ParseArg(t).error) else Help
  }

  /** A token taken as a file name when it is not at index 0. */
  predicate IsFileToken(t: string) {
    !IsOption(t) && !IsHelp(t)
  }

  /** The file tokens after the program name, in command-line order. */
  function FileArgs(args: seq<string>): seq<string> {
    if |args| <= 1 then []
    else FileArgs(args[..|args| - 1]) + (if IsFileToken(args[|args| - 1]) then [args[|args| - 1]] else [])
  }

  /** The value of the last option whose value parses, or `UNSET` when there is none. */
  function LastIterations(args: seq<string>): i32 {
    if args == [] then UNSET
    else
      var t := args[|args| - 1];
      if IsOption(t) && ParseArg(t).Ok? then ParseArg(t).value else LastIterations(args[..|args| - 1])
  }

  lemma {:induction false} ScanStopsAt(args: seq<string>, index: nat, k: nat, iterations: i32, files: seq<string>)
    requires index <= k < |args| && Stops(args[k])
    requires forall j :: index <= j < k ==> !Stops(args[j])
    ensures ScanFrom(args, index, iterations, files) == StopOutcome(args[k])
    decreases k - index
  {
    if index < k {
      assert !Stops(args[index]);
      var arg := args[index];
      if IsOption(arg) {
        ScanStopsAt(args, index + 1, k, ParseArg(arg).value, files);
      } else if index > 0 {
        ScanStopsAt(args, index + 1, k, iterations, files + [arg]);
      } else {
        ScanStopsAt(args, index + 1, k, iterations, files);
      }
    }
  }

  lemma {:induction false} ScanCompletes(args: seq<string>, index: nat, iterations: i32, files: seq<string>)
    requires index <= |args|
    requires forall j :: index <= j < |args| ==> !Stops(args[j])
    requires iterations == LastIterations(args[..index])
    requires files == FileArgs(args[..index])
    ensures ScanFrom(args, index, iterations, files)
         == (if FileArgs(args) == [] then Usage else Request(FileArgs(args), LastIterations(args)))
    decreases |args| - index
  {
    if index == |args| {
      assert args[..index] == args;
    } else {
      var arg := args[index];
      assert !Stops(arg);
      var prefix := args[..index + 1];
      assert prefix[..|prefix| - 1] == args[..index];
      assert prefix[|prefix| - 1] == arg;
      if IsOption(arg) {
        ScanCompletes(args, index + 1, ParseArg(arg).value, files);
      } else if index > 0 {
        ScanCompletes(args, index + 1, iterations, files + [arg]);
      } else {
        assert FileArgs(prefix) == [];
        ScanCompletes(args, index + 1, iterations, files);
      }
    }
  }

  /**
   * Tokens are handled strictly in order: the first help token or badly
   * valued option decides the outcome, whatever follows it.
   */
  lemma FirstStopDecides(args: seq<string>, k: nat)
    requires k < |args| && Stops(args[k])
    requires forall j :: 0 <= j < k ==> !Stops(args[j])
    ensures IsHelp(args[k]) ==> Interpret(args) == Help
    ensures IsOption(args[k]) ==> Interpret(args) == BadArgument(ParseArg(args[k]).error)
  {
    if IsHelp(args[k]) {
      DiffersAt(args[k], "-i", 1);
      DiffersAt(args[k], "--iterations", if args[k] == "-h" then 1 else 2);
    }
    ScanStopsAt(args, 0, k, UNSET, []);
  }

  /**
   * When no token stops the scan, the request holds the file tokens after
   * the program name in order and the last parsed iterations value, or the
   * scan ends in `Usage` when there is no file.
   */
  lemma CompletedScan(args: seq<string>)
    requires forall j :: 0 <= j < |args| ==> !Stops(args[j])
    ensures Interpret(args) == (if FileArgs(args) == [] then Usage else Request(FileArgs(args), LastIterations(args)))
  {
    assert args[..0] == [];
    ScanCompletes(args, 0, UNSET, []);
  }

  lemma {:induction false} SomeFirstStop(args: seq<string>, k: nat) returns (m: nat)
    requires k < |args| && Stops(args[k])
    ensures m <= k && Stops(args[m])
    ensures forall j :: 0 <= j < m ==> !Stops(args[j])
  {
    if j :| 0 <= j < k && Stops(args[j]) {
      m := SomeFirstStop(args, j);
    } else {
      m := k;
    }
  }

  /**
   * A request is made exactly when no token stops the scan and some file
   * token follows the program name; it then carries those files and the
   * last parsed iterations value.
   */
  lemma RequestIff(args: seq<string>)
    ensures Interpret(args).Request?
        <==> (forall j :: 0 <= j < |args| ==> !Stops(args[j])) && FileArgs(args) != []
    ensures Interpret(args).Request? ==>
              Interpret(args).files == FileArgs(args) && Interpret(args).iterations == LastIterations(args)
  {
    if k :| 0 <= k < |args| && Stops(args[k]) {
      var m := SomeFirstStop(args, k);
      FirstStopDecides(args, m);
    } else {
      CompletedScan(args);
    }
  }

  /** The program name never reaches the file list, whatever it is. */
  lemma {:induction false} ProgramNameIgnored(args: seq<string>, name: string)
    requires |args| >= 1
    ensures FileArgs(args) == FileArgs([name] + args[1..])
    decreases |args|
  {
    if |args| > 1 {
      var other := [name] + args[1..];
      assert other[..|other| - 1] == [name] + args[..|args| - 1][1..];
      ProgramNameIgnored(args[..|args| - 1], name);
    }
  }

  /** Every file in the list is a file token at some index after 0. */
  lemma {:induction false} FileArgsFromArgs(args: seq<string>, i: nat)
    requires i < |FileArgs(args)|
    ensures exists j :: 1 <= j < |args| && args[j] == FileArgs(args)[i] && IsFileToken(args[j])
    decreases |args|
  {
    var init := args[..|args| - 1];
    if i < |FileArgs(init)| {
      FileArgsFromArgs(init, i);
      var j :| 1 <= j < |init| && init[j] == FileArgs(init)[i] && IsFileToken(init[j]);
      assert args[j] == init[j];
    } else {
      assert args[|args| - 1] == FileArgs(args)[i];
    }
  }

  /** Without any option that parses, `iterations` keeps the sentinel. */
  lemma {:induction false} UnsetWithoutOptions(args: seq<string>)
    requires forall j :: 0 <= j < |args| ==> !(IsOption(args[j]) && ParseArg(args[j]).Ok?)
    ensures LastIterations(args) == UNSET
    decreases |args|
  {
    if args != [] {
      UnsetWithoutOptions(args[..|args| - 1]);
    }
  }

  /**
   * A later option overrides every earlier one: after the last option whose
   * value parses, file tokens and other non-options change nothing.
   */
  lemma {:induction false} LastOptionWins(args: seq<string>, opt: string, rest: seq<string>)
    requires IsOption(opt) && ParseArg(opt).Ok?
    requires forall j :: 0 <= j < |rest| ==> !IsOption(rest[j])
    ensures LastIterations(args + [opt] + rest) == ParseArg(opt).value
    decreases |rest|
  {
    var all := args + [opt] + rest;
    if rest == [] {
      assert all[|all| - 1] == opt;
    } else {
      var init := rest[..|rest| - 1];
      assert all[..|all| - 1] == args + [opt] + init;
      assert all[|all| - 1] == rest[|rest| - 1];
      LastOptionWins(args, opt, init);
    }
  }

  // ----- Corner cases of the command line -----

  lemma DiffersAt(t: string, prefix: string, i: nat)
    requires i < |prefix| && (i >= |t| || t[i] != prefix[i])
    ensures !StartsWith(t, prefix)
  {
    if |prefix| <= |t| {
      assert t[..|prefix|][i] != prefix[i];
    }
  }

  /** A token whose first character is not `-` is a file token. */
  lemma PlainNameIsFile(t: string)
    requires |t| > 0 && t[0] != '-'
    ensures IsFileToken(t) && !Stops(t)
  {
    DiffersAt(t, "-i", 0);
    DiffersAt(t, "--iterations", 0);
  }

  /** A value is never taken from the following token: `-i 50` fails on the empty suffix. */
  lemma SeparatedValueRefused()
    ensures Interpret(["nbt-compress", "-i", "50", "a.nbt"]) == BadArgument(ParseFailed(Empty))
  {
    PlainNameIsFile("nbt-compress");
    assert IsShortOption("-i");
    assert OptionValueText("-i") == [];
  }

  /** `--iterations=50` fails: its suffix is `=50`. */
  lemma EqualsFormRefused()
    ensures Interpret(["nbt-compress", "--iterations=50", "a.nbt"]) == BadArgument(ParseFailed(InvalidDigit))
  {
    var t := "--iterations=50";
    PlainNameIsFile("nbt-compress");
    DiffersAt(t, "-i", 1);
    assert IsLongOption(t) by { assert t[..12] == "--iterations"; }
    assert OptionValueText(t) == "=50";
  }

  /** `-i-1` parses to the sentinel, so it silently means "not set". */
  lemma MinusOneMeansUnset()
    ensures Interpret(["nbt-compress", "-i-1", "a.nbt"]) == Request(["a.nbt"], UNSET)
  {
    var args := ["nbt-compress", "-i-1", "a.nbt"];
    var t := "-i-1";
    assert IsShortOption(t) by { assert t[..2] == "-i"; }
    assert OptionValueText(t) == "-1";
    PlainNameIsFile("nbt-compress");
    PlainNameIsFile("a.nbt");
    assert ParseI32("-1") == Ok(-1);
    assert ScanFrom(args, 3, -1, ["a.nbt"]) == Request(["a.nbt"], -1);
  }

  /** `-i0` is accepted here; the zero reaches the encoder set-up. */
  lemma ZeroAccepted()
    ensures Interpret(["nbt-compress", "-i0", "a.nbt"]) == Request(["a.nbt"], 0)
  {
    var args := ["nbt-compress", "-i0", "a.nbt"];
    var t := "-i0";
    assert IsShortOption(t) by { assert t[..2] == "-i"; }
    assert OptionValueText(t) == "0";
    PlainNameIsFile("nbt-compress");
    PlainNameIsFile("a.nbt");
    assert ParseI32("0") == Ok(0);
    assert ScanFrom(args, 3, 0, ["a.nbt"]) == Request(["a.nbt"], 0);
  }

  /** With only the program name there is nothing to do: usage, exit 1. */
  lemma NoFilesIsUsage()
    ensures Interpret(["nbt-compress"]) == Usage
  {
    PlainNameIsFile("nbt-compress");
  }
}
