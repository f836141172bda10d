/** InitGoogleMockImpl: recognises the flags of the framework on the command line and removes them
    from argv in place. None is the NULL pointer that ends argv. */
module GoogleMockInit {
  import opened Wrappers

  type Arg = Option<string>

  datatype Flags = Flags(catchLeakedMocks: bool, verbose: string, defaultMockBehavior: int)

  /** The value of "--gmock_flag=value"; with defOptional the "=value" part may be missing. */
  function ParseFlagValue(str: string, flag: string, defOptional: bool): Option<string> {
    var prefix := "--gmock_" + flag;
    if !(prefix <= str) then None
    else
      var rest := str[|prefix|..];
      if defOptional && rest == "" then Some(rest)
      else if rest == "" || rest[0] != '=' then None
      else Some(rest[1..])
  }

  /** The flags after one argument, or None if it is not a flag of the framework. parseInt is the
      framework's ParseInt32. */
  function Apply(flags: Flags, arg: string, parseInt: string -> Option<int>): Option<Flags> {
    match ParseFlagValue(arg, "catch_leaked_mocks", true)
    case Some(v) => Some(flags.(catchLeakedMocks := v == "" || (v[0] != '0' && v[0] != 'f' && v[0] != 'F')))
    case None =>
      match ParseFlagValue(arg, "verbose", false)
      case Some(v) => Some(flags.(verbose := v))
      case None =>
        match ParseFlagValue(arg, "default_mock_behavior", true)
        case None => None
        case Some(v) =>
          match parseInt(v)
          case None => None
          case Some(n) => Some(flags.(defaultMockBehavior := n))
  }

  /** The arguments that are no flags, in their order. */
  function Kept(flags: Flags, args: seq<string>, parseInt: string -> Option<int>): (r: seq<string>)
    ensures |r| <= |args|
    decreases args
  {
    if args == [] then []
    else
      match Apply(flags, args[0], parseInt)
      case None => [args[0]] + Kept(flags, args[1..], parseInt)
      case Some(flags') => Kept(flags', args[1..], parseInt)
  }

  /** The flags after all arguments; a later one overrides an earlier one. */
  function Applied(flags: Flags, args: seq<string>, parseInt: string -> Option<int>): Flags
    decreases args
  {
    if args == [] then flags
    else
      match Apply(flags, args[0], parseInt)
      case None => Applied(flags, args[1..], parseInt)
      case Some(flags') => Applied(flags', args[1..], parseInt)
  }

  function Pointers(args: seq<string>): (r: seq<Arg>)
    ensures |r| == |args| && forall i :: 0 <= i < |args| ==> r[i] == Some(args[i])
  {
    seq(|args|, i requires 0 <= i < |args| => Some(args[i]))
  }

  /** argv holds exactly these arguments and the NULL behind them. */
  ghost predicate Represents(argv: seq<Arg>, args: seq<string>) {
    argv == Pointers(args) + [None]
  }

  /** Whether an argument is a flag does not depend on the flags' current values. */
  lemma FlagOrNot(flags: Flags, flags': Flags, arg: string, parseInt: string -> Option<int>)
    ensures Apply(flags, arg, parseInt).Some? <==> Apply(flags', arg, parseInt).Some?
  {
  }

  // ----- which arguments are flags, and what they set

  lemma FlagValue(str: string, flag: string, defOptional: bool, v: string)
    ensures ParseFlagValue(str, flag, defOptional) == Some(v) <==>
            str == "--gmock_" + flag + "=" + v || (defOptional && v == "" && str == "--gmock_" + flag)
  {
    var prefix := "--gmock_" + flag;
    if prefix <= str {
      var rest := str[|prefix|..];
      assert str == prefix + rest;
      if rest != "" && rest[0] == '=' {
        assert rest == "=" + rest[1..];
        assert str == prefix + "=" + rest[1..];
      }
    }
    if str == prefix + "=" + v {
      assert str[|prefix|..] == "=" + v;
    }
  }

  /** The names of the three flags differ in this letter. */
  lemma FirstLetter(str: string, flag: string, defOptional: bool)
    requires flag != ""
    ensures ParseFlagValue(str, flag, defOptional).Some? ==> |str| > 8 && str[8] == flag[0]
  {
    var prefix := "--gmock_" + flag;
    assert prefix[8] == flag[0];
    if prefix <= str {
      assert str[8] == prefix[8];
    }
  }

  lemma VerboseSets(flags: Flags, v: string, parseInt: string -> Option<int>)
    ensures Apply(flags, "--gmock_verbose=" + v, parseInt) == Some(flags.(verbose := v))
  {
    var arg := "--gmock_verbose=" + v;
    assert arg[8] == 'v';
    FirstLetter(arg, "catch_leaked_mocks", true);
    assert "--gmock_" + "verbose" + "=" + v == arg;
    FlagValue(arg, "verbose", false, v);
  }

  /** Any value but one that begins with 0, f or F means true, and so does a missing one. */
  lemma CatchLeakedMocksSets(flags: Flags, v: string, parseInt: string -> Option<int>)
    ensures Apply(flags, "--gmock_catch_leaked_mocks", parseInt) == Some(flags.(catchLeakedMocks := true))
    ensures var no := "0" <= v || "f" <= v || "F" <= v;
            Apply(flags, "--gmock_catch_leaked_mocks=" + v, parseInt) == Some(flags.(catchLeakedMocks := !no))
  {
    var arg := "--gmock_catch_leaked_mocks=" + v;
    assert "--gmock_" + "catch_leaked_mocks" == "--gmock_catch_leaked_mocks";
    assert "--gmock_" + "catch_leaked_mocks" + "=" + v == arg;
    FlagValue("--gmock_catch_leaked_mocks", "catch_leaked_mocks", true, "");
    FlagValue(arg, "catch_leaked_mocks", true, v);
  }

  /** The value is what ParseInt32 makes of it; if it refuses, nothing is set and the argument is no
      flag ... */
  lemma DefaultMockBehaviorSets(flags: Flags, v: string, parseInt: string -> Option<int>)
    ensures Apply(flags, "--gmock_default_mock_behavior=" + v, parseInt) ==
            match parseInt(v) case None => None case Some(n) => Some(flags.(defaultMockBehavior := n))
  {
    hide ParseFlagValue;
    var arg := "--gmock_default_mock_behavior=" + v;
    assert "--gmock_" + "default_mock_behavior" + "=" == "--gmock_default_mock_behavior=";
    DefaultMockBehavior(flags, arg, v, parseInt);
  }

  /** ... and a missing value counts as an empty one. */
  lemma DefaultMockBehaviorAlone(flags: Flags, parseInt: string -> Option<int>)
    ensures Apply(flags, "--gmock_default_mock_behavior", parseInt) ==
            match parseInt("") case None => None case Some(n) => Some(flags.(defaultMockBehavior := n))
  {
    hide ParseFlagValue;
    var arg := "--gmock_default_mock_behavior";
    assert "--gmock_" + "default_mock_behavior" == arg;
    DefaultMockBehavior(flags, arg, "", parseInt);
  }

  lemma DefaultMockBehavior(flags: Flags, arg: string, v: string, parseInt: string -> Option<int>)
    requires || arg == "--gmock_" + "default_mock_behavior" + "=" + v
             || (v == "" && arg == "--gmock_" + "default_mock_behavior")
    ensures Apply(flags, arg, parseInt) ==
            match parseInt(v) case None => None case Some(n) => Some(flags.(defaultMockBehavior := n))
  {
    hide ParseFlagValue;
    assert |arg| > 8 && arg[8] == 'd';
    FirstLetter(arg, "catch_leaked_mocks", true);
    FirstLetter(arg, "verbose", false);
    FlagValue(arg, "default_mock_behavior", true, v);
  }

  /** Nothing else is a flag. */
  lemma NothingElseIsFlag(flags: Flags, arg: string, parseInt: string -> Option<int>)
    requires arg != "--gmock_catch_leaked_mocks" && !("--gmock_catch_leaked_mocks=" <= arg)
    requires !("--gmock_verbose=" <= arg)
    requires arg != "--gmock_default_mock_behavior" && !("--gmock_default_mock_behavior=" <= arg)
    ensures Apply(flags, arg, parseInt).None?
  {
    hide ParseFlagValue;
    NoCatchLeakedMocks(arg);
    NoVerbose(arg);
    NoDefaultMockBehavior(arg);
  }

  lemma NoCatchLeakedMocks(arg: string)
    requires arg != "--gmock_catch_leaked_mocks" && !("--gmock_catch_leaked_mocks=" <= arg)
    ensures ParseFlagValue(arg, "catch_leaked_mocks", true).None?
  {
    hide ParseFlagValue;
    HasValue(arg, "catch_leaked_mocks", "--gmock_catch_leaked_mocks", "--gmock_catch_leaked_mocks=", true);
  }

  lemma NoVerbose(arg: string)
    requires !("--gmock_verbose=" <= arg)
    ensures ParseFlagValue(arg, "verbose", false).None?
  {
    hide ParseFlagValue;
    HasValue(arg, "verbose", "--gmock_verbose", "--gmock_verbose=", false);
  }

  lemma NoDefaultMockBehavior(arg: string)
    requires arg != "--gmock_default_mock_behavior" && !("--gmock_default_mock_behavior=" <= arg)
    ensures ParseFlagValue(arg, "default_mock_behavior", true).None?
  {
    hide ParseFlagValue;
    HasValue(arg, "default_mock_behavior", "--gmock_default_mock_behavior", "--gmock_default_mock_behavior=", true);
  }

  lemma HasValue(arg: string, flag: string, name: string, nameAndSign: string, defOptional: bool)
    requires name == "--gmock_" + flag && nameAndSign == name + "="
    ensures ParseFlagValue(arg, flag, defOptional).Some? ==> (defOptional && arg == name) || nameAndSign <= arg
  {
    var r := ParseFlagValue(arg, flag, defOptional);
    if r.Some? {
      FlagValue(arg, flag, defOptional, r.value);
      if arg == name + "=" + r.value {
        assert arg == nameAndSign + r.value;
      }
    }
  }

  predicate IsFlag(arg: string, parseInt: string -> Option<int>) {
    Apply(Flags(true, "", 0), arg, parseInt).Some?
  }

  /** The kept arguments are exactly those at the positions that hold no flag, in the original order. */
  lemma {:induction false} KeptInOrder(flags: Flags, args: seq<string>, parseInt: string -> Option<int>)
    returns (at: seq<nat>)
    ensures |at| == |Kept(flags, args, parseInt)|
    ensures forall k :: 0 <= k < |at| ==> at[k] < |args| && Kept(flags, args, parseInt)[k] == args[at[k]]
    ensures forall k, m :: 0 <= k < m < |at| ==> at[k] < at[m]
    ensures forall i :: 0 <= i < |args| ==> (i in at <==> !IsFlag(args[i], parseInt))
    decreases |args|
  {
    hide Kept, Applied, Apply;
    if args == [] {
      at := [];
    } else {
      var n := |args| - 1;
      at := KeptInOrder(flags, args[..n], parseInt);
      KeptLast(flags, args[..n], args[n], parseInt);
      assert args == args[..n] + [args[n]];
      FlagOrNot(Applied(flags, args[..n], parseInt), Flags(true, "", 0), args[n], parseInt);
      if !IsFlag(args[n], parseInt) {
        at := at + [n];
      }
    }
  }

  lemma {:induction false} KeptLast(flags: Flags, args: seq<string>, arg: string, parseInt: string -> Option<int>)
    ensures Kept(flags, args + [arg], parseInt) == Kept(flags, args, parseInt) +
            if Apply(Applied(flags, args, parseInt), arg, parseInt).None? then [arg] else []
    decreases args
  {
    if args != [] {
      assert (args + [arg])[0] == args[0] && (args + [arg])[1..] == args[1..] + [arg];
      match Apply(flags, args[0], parseInt)
      case None => KeptLast(flags, args[1..], arg, parseInt);
      case Some(flags') => KeptLast(flags', args[1..], arg, parseInt);
    }
  }

  /** Nothing that is kept is a flag, so running the framework's initialisation again removes nothing
      more and changes no flag. */
  lemma {:induction false} KeptIsStable(flags: Flags, flags': Flags, args: seq<string>, parseInt: string -> Option<int>)
    ensures var kept := Kept(flags, args, parseInt);
            Kept(flags', kept, parseInt) == kept && Applied(flags', kept, parseInt) == flags'
    decreases args
  {
    if args != [] {
      var flags1 := Apply(flags, args[0], parseInt);
      match flags1
      case Some(f) => KeptIsStable(f, flags', args[1..], parseInt);
      case None =>
        FlagOrNot(flags, flags', args[0], parseInt);
        KeptIsStable(flags, flags', args[1..], parseInt);
        assert ([args[0]] + Kept(flags, args[1..], parseInt))[1..] == Kept(flags, args[1..], parseInt);
    }
  }

  /** Shifts argv[i + 1..] to the left by one, the trailing NULL included. */
  method Shift(argv: array<Arg>, i: nat, argc: nat)
    requires i < argc < argv.Length
    modifies argv
    ensures argv[..argc] == old(argv[..i] + argv[i + 1..argc + 1])
  {
    var j := i;
    while j != argc
      invariant i <= j <= argc
      invariant argv[..i] == old(argv[..i])
      invariant forall k :: i <= k < j ==> argv[k] == old(argv[k + 1])
      invariant forall k :: j <= k < argv.Length ==> argv[k] == old(argv[k])
    {
      argv[j] := argv[j + 1];
      j := j + 1;
    }
  }

  /** `args` are the arguments that argv holds behind the program name. */
  method InitGoogleMockImpl(argc: int, argv: array<Arg>, flags: Flags, parseInt: string -> Option<int>,
                            ghost name: string, ghost args: seq<string>)
    returns (argc': int, flags': Flags)
    requires argc > 0 ==> argc == |args| + 1 < argv.Length && Represents(argv[..argc + 1], [name] + args)
    modifies argv
    ensures argc <= 0 ==> argc' == argc && argv[..] == old(argv[..]) && flags' == flags
    ensures argc > 0 ==>
              && argc' == 1 + |Kept(flags, args, parseInt)| < argv.Length
              && Represents(argv[..argc' + 1], [name] + Kept(flags, args, parseInt))
              && flags' == Applied(flags, args, parseInt)
  {
    hide Apply, Kept, Applied, Represents;
    argc', flags' := argc, flags;
    if argc <= 0 {
      return;
    }
    ghost var done: seq<string>, rest := [name], args;
    assert [name] + args == done + rest;
    var i := 1;
    while i != argc'
      invariant 1 <= i <= argc' < argv.Length && i == |done| && argc' == |done| + |rest|
      invariant Represents(argv[..argc' + 1], done + rest)
      invariant done + Kept(flags', rest, parseInt) == [name] + Kept(flags, args, parseInt)
      invariant Applied(flags', rest, parseInt) == Applied(flags, args, parseInt)
      decreases argc' - i
    {
      NextPointer(argv[..argc' + 1], done, rest);
      var arg := argv[i].value;
      var applied := Apply(flags', arg, parseInt);
      NextArg(flags', rest, parseInt);
      if applied.Some? {
        ghost var was := argv[..argc' + 1];
        assert was[..i] == argv[..i] && was[i + 1..] == argv[i + 1..argc' + 1];
        Shift(argv, i, argc');
        Dropped(was, done, rest);
        argc', flags', rest := argc' - 1, applied.value, rest[1..];
        i := i - 1;
      } else {
        Moved(done, rest, Kept(flags', rest[1..], parseInt));
        done, rest := done + [rest[0]], rest[1..];
      }
      i := i + 1;
    }
    assert done + rest == done && done + [] == done;
    NoArgs(flags', parseInt);
  }

  lemma NextPointer(argv: seq<Arg>, done: seq<string>, rest: seq<string>)
    requires Represents(argv, done + rest) && rest != []
    ensures |done| < |argv| && argv[|done|] == Some(rest[0])
  {
    assert (done + rest)[|done|] == rest[0];
  }

  lemma NoArgs(flags: Flags, parseInt: string -> Option<int>)
    ensures Kept(flags, [], parseInt) == [] && Applied(flags, [], parseInt) == flags
  {
  }

  lemma NextArg(flags: Flags, rest: seq<string>, parseInt: string -> Option<int>)
    requires rest != []
    ensures var applied := Apply(flags, rest[0], parseInt);
            if applied.Some? then
              && Kept(flags, rest, parseInt) == Kept(applied.value, rest[1..], parseInt)
              && Applied(flags, rest, parseInt) == Applied(applied.value, rest[1..], parseInt)
            else
              && Kept(flags, rest, parseInt) == [rest[0]] + Kept(flags, rest[1..], parseInt)
              && Applied(flags, rest, parseInt) == Applied(flags, rest[1..], parseInt)
  {
  }

  lemma Moved(done: seq<string>, rest: seq<string>, others: seq<string>)
    requires rest != []
    ensures done + rest == (done + [rest[0]]) + rest[1..]
    ensures done + ([rest[0]] + others) == (done + [rest[0]]) + others
  {
    assert rest == [rest[0]] + rest[1..];
  }

  lemma Dropped(argv: seq<Arg>, done: seq<string>, rest: seq<string>)
    requires rest != [] && Represents(argv, done + rest)
    ensures Represents(argv[..|done|] + argv[|done| + 1..], done + rest[1..])
  {
  }
}
