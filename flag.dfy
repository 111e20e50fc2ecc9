/** Command-line handling of flag/flag.go: the argument scan `parse` and the
    decision chain of `Parse`, whose calls to os.Exit become an outcome value.
    Printing the usage, help and version texts (flag/options.go) is not part
    of this model; the outcome only names which text would be shown. */
module Flag {

  /** The switches `parse` fills in; `damon` keeps the source's spelling of
      "daemon". */
  datatype Options = Options(done: bool, help: bool, version: bool, config: string, damon: bool)

  /** Which text `Parse` prints before exiting. */
  datatype Screen = Usage | Help | Version

  /** What `Parse` does: exit with a code after showing a text, or return the
      configuration path. */
  datatype Outcome = Exit(code: int, shown: Screen) | Proceed(config: string)

  /** `v` is the value `-c` leaves behind in `args`: the argument after the
      last "-c" (at index 1 or later) that has a successor, or "" when there
      is no such "-c". */
  ghost predicate IsConfigValue(args: seq<string>, v: string)
  {
    (v == "" && NoConfigSwitchAfter(args, 0)) ||
    (exists p :: 1 <= p < |args| - 1 && args[p] == "-c" && v == args[p + 1] && NoConfigSwitchAfter(args, p))
  }

  /** No "-c" with a successor sits after index `p`. */
  ghost predicate NoConfigSwitchAfter(args: seq<string>, p: nat)
  {
    forall q :: p < q < |args| - 1 ==> args[q] != "-c"
  }

  /** The description of the `-c` value picks exactly one string. */
  lemma IsConfigValueUnique(args: seq<string>, v: string, w: string)
    requires IsConfigValue(args, v) && IsConfigValue(args, w)
    ensures v == w
  {
    if !(v == "" && NoConfigSwitchAfter(args, 0)) && !(w == "" && NoConfigSwitchAfter(args, 0)) {
      var p :| 1 <= p < |args| - 1 && args[p] == "-c" && v == args[p + 1] && NoConfigSwitchAfter(args, p);
      var p' :| 1 <= p' < |args| - 1 && args[p'] == "-c" && w == args[p' + 1] && NoConfigSwitchAfter(args, p');
      if p < p' {
        assert false;
      } else if p' < p {
        assert false;
      }
    }
  }

  /** `parse`: the scan of the command line (args[0] is the program name). */
  method ParseArgs(args: seq<string>) returns (o: Options)
    ensures o.done <==> |args| < 2
    ensures o.done ==> o == Options(true, false, false, "", false)
    ensures o.help <==> |args| >= 2 && (args[1] == "-h" || args[1] == "-?")
    ensures o.version <==> |args| >= 2 && args[1] == "-v"
    ensures IsConfigValue(args, o.config)
    ensures o.damon <==> exists i :: 1 <= i < |args| && args[i] == "-d"
  {
    o := Options(false, false, false, "", false);
    if |args| < 2 {
      o := o.(done := true);
      return;
    }
    if args[1] == "-h" || args[1] == "-?" {
      o := o.(help := true);
    }
    if args[1] == "-v" {
      o := o.(version := true);
    }
    // index runs over args[1..]; the argument it names is args[index + 1]
    ghost var last := 0;
    var index := 0;
    while index < |args| - 1
      invariant 0 <= index <= |args| - 1
      invariant !o.done
      invariant o.help <==> args[1] == "-h" || args[1] == "-?"
      invariant o.version <==> args[1] == "-v"
      invariant 0 <= last <= index && last < |args| - 1
      invariant last == 0 ==> o.config == ""
      invariant last != 0 ==> args[last] == "-c" && o.config == args[last + 1]
      invariant forall q :: last < q <= index && q < |args| - 1 ==> args[q] != "-c"
      invariant o.damon <==> exists i :: 1 <= i <= index && args[i] == "-d"
    {
      var line := args[index + 1];
      if line == "-c" && index + 2 < |args| {
        o := o.(config := args[index + 2]);
        last := index + 1;
        index := index + 1;
        continue;
      }
      if line == "-d" {
        o := o.(damon := true);
      }
      index := index + 1;
    }
  }

  /** The decision chain of `Parse` over what `parse` found. */
  function Decide(o: Options): (r: Outcome)
    ensures r.Proceed? <==> !o.done && !o.help && !o.version && o.config != ""
    ensures r.Proceed? ==> r.config == o.config && r.config != ""
    ensures r.Exit? ==> (r.code == 0 <==> r.shown != Usage)
    ensures o.done ==> r == Exit(1, Usage)
    ensures !o.done && o.help ==> r == Exit(0, Help)
    ensures !o.done && !o.help && o.version ==> r == Exit(0, Version)
    ensures !o.done && !o.help && !o.version && o.config == "" ==> r == Exit(1, Usage)
  {
    if o.done then Exit(1, Usage)
    else if o.help then Exit(0, Help)
    else if o.version then Exit(0, Version)
    else if o.config == "" then Exit(1, Usage)
    else Proceed(o.config)
  }

  /** `Parse` on a given command line. */
  method Parse(args: seq<string>) returns (r: Outcome)
    ensures |args| < 2 ==> r == Exit(1, Usage)
    ensures |args| >= 2 && (args[1] == "-h" || args[1] == "-?") ==> r == Exit(0, Help)
    ensures |args| >= 2 && args[1] == "-v" ==> r == Exit(0, Version)
    ensures r.Proceed? <==> |args| >= 2 && args[1] !in {"-h", "-?", "-v"} &&
                            exists p :: 1 <= p < |args| - 1 && args[p] == "-c" && args[p + 1] != "" &&
                                        NoConfigSwitchAfter(args, p)
    ensures r.Proceed? ==> r.config != "" && IsConfigValue(args, r.config)
    ensures |args| >= 2 && args[1] !in {"-h", "-?", "-v"} && !r.Proceed? ==> r == Exit(1, Usage)
  {
    var options := ParseArgs(args);
    r := Decide(options);
  }
}
