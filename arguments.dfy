/**
 * Command-line handling shared by config.py and Infrastructor.py:
 * `merge_dicts` and the recursive flag parser `rec_argparse`.
 */
module Arguments {
  import opened Wrappers

  /** `merge_dicts(base, update)`: a fresh dict with every key of both, `update` winning on clashes. */
  function MergeDicts<K(!new), V>(base: map<K, V>, update: map<K, V>): (d: map<K, V>)
    ensures forall k :: k in d <==> k in base || k in update
    ensures forall k :: k in update ==> d[k] == update[k]
    ensures forall k :: k in base && k !in update ==> d[k] == base[k]
  {
    base + update
  }

  /** The values an option dict holds: the configuration file name or the verbose flag. */
  datatype OptionValue = Text(text: string) | Flag(flag: bool)

  /** The usage message followed by `sys.exit(1)`. */
  datatype UsageExit = UsageExit

  const ConfFileKey: string := "json_conf_file"
  const VerboseKey: string := "verbose"

  /** The options `rec_argparse` returns for a configuration file and a verbosity. */
  function Options(confFile: string, verbose: bool): map<string, OptionValue> {
    map[ConfFileKey := Text(confFile), VerboseKey := Flag(verbose)]
  }

  /**
   * `rec_argparse(args, pname)`: no argument is a usage exit; one argument is
   * the configuration file; otherwise the head must be the flag `-v`, whose
   * dict is merged over the result of parsing the tail.
   */
  function RecArgparse(args: seq<string>): Result<map<string, OptionValue>, UsageExit>
    decreases |args|
  {
    if |args| == 0 then Failure(UsageExit)
    else if |args| == 1 then Success(Options(args[0], false))
    else if args[0] != "-v" then Failure(UsageExit)
    else
      match RecArgparse(args[1..])
      case Failure(e) => Failure(e)
      case Success(d) => Success(MergeDicts(d, map[VerboseKey := Flag(true)]))
  }

  /**
   * The language `rec_argparse` accepts: one or more arguments of which all
   * but the last are `-v`. The last is the configuration file, and verbose
   * mode is on exactly when at least one `-v` was given.
   */
  lemma {:induction false} RecArgparseAccepts(args: seq<string>)
    ensures RecArgparse(args).Success? <==> |args| >= 1 && forall i :: 0 <= i < |args| - 1 ==> args[i] == "-v"
    ensures RecArgparse(args).Success? ==> RecArgparse(args).value == Options(args[|args| - 1], |args| > 1)
    decreases |args|
  {
    if |args| > 1 {
      RecArgparseAccepts(args[1..]);
      if args[0] == "-v" {
        assert (forall i :: 0 <= i < |args| - 1 ==> args[i] == "-v")
          <==> (forall i :: 0 <= i < |args[1..]| - 1 ==> args[1..][i] == "-v") by {
          forall i | 0 <= i < |args[1..]| - 1 ensures args[1..][i] == args[i + 1] { }
          if forall i :: 0 <= i < |args[1..]| - 1 ==> args[1..][i] == "-v" {
            forall i | 0 <= i < |args| - 1 ensures args[i] == "-v" {
              if i > 0 {
                assert args[1..][i - 1] == args[i];
              }
            }
          }
        }
        if RecArgparse(args).Success? {
          assert args[1..][|args[1..]| - 1] == args[|args| - 1];
          assert MergeDicts(Options(args[|args| - 1], |args[1..]| > 1), map[VerboseKey := Flag(true)])
            == Options(args[|args| - 1], true);
        }
      }
    }
  }

  /** With exactly one argument the result is that file, not verbose; with none it is a usage exit. */
  lemma RecArgparseBaseCases(file: string)
    ensures RecArgparse([file]) == Success(Options(file, false))
    ensures RecArgparse([]) == Failure(UsageExit)
  {
  }

  /** `-v` repeated k >= 1 times before the file turns verbose mode on; any other leading token is a usage exit. */
  lemma RecArgparseFlags(flags: seq<string>, file: string, other: string, rest: seq<string>)
    requires |flags| >= 1 && forall i :: 0 <= i < |flags| ==> flags[i] == "-v"
    requires other != "-v" && |rest| >= 1
    ensures RecArgparse(flags + [file]) == Success(Options(file, true))
    ensures RecArgparse([other] + rest) == Failure(UsageExit)
  {
    RecArgparseAccepts(flags + [file]);
    assert (flags + [file])[|flags + [file]| - 1] == file;
    assert forall i :: 0 <= i < |flags + [file]| - 1 ==> (flags + [file])[i] == flags[i];
  }
}
