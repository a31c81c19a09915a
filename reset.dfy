/** reset.js: the command-line reset. It asks for confirmation unless a flag
    skips it, removes the data directory, deletes the stored password, and
    exits 0 on success or cancellation and 1 on a synchronous failure. */
module Reset {
  import opened Wrappers
  import opened Text

  /** `process.argv.slice(2)`: the arguments after the runtime and the script. */
  function UserArgs(argv: seq<string>): seq<string> {
    if |argv| <= 2 then [] else argv[2..]
  }

  /** `hasConfirmFlag`: `--confirm` or `-y` is among the user's arguments. */
  function HasConfirmFlag(argv: seq<string>): (r: bool)
    ensures r <==> exists i :: 2 <= i < |argv| && (argv[i] == "--confirm" || argv[i] == "-y")
  {
    var args := UserArgs(argv);
    assert forall i :: 2 <= i < |argv| ==> argv[i] == args[i - 2];
    "--confirm" in args || "-y" in args
  }

  /** The answer test `answer.toLowerCase() === 'y'`. */
  function Confirmed(answer: string): (r: bool)
    ensures r <==> answer == "y" || answer == "Y"
  {
    var lower := Lower(answer);
    assert |lower| == 1 ==> lower == [lower[0]];
    lower == "y"
  }

  /** The data directory the reset removes. */
  function DataPath(packaged: bool, userData: string): (path: string)
    ensures packaged ==> path == userData + "/minidata"
    ensures !packaged ==> path == "./minidata1"
  {
    if packaged then userData + "/minidata" else "./minidata1"
  }

  /** What the reset finds: whether it runs packaged, the userData directory,
      whether the data directory exists, whether removing it throws, whether
      the keychain module loads, and whether the keychain deletion succeeds. */
  datatype ResetEnv = ResetEnv(
    packaged: bool, userData: string, dataExists: bool, removeThrows: bool,
    keychainLoads: bool, keychainDeletes: bool)

  /** Whether the user was asked, the directory removed (if any), whether the
      password deletion was attempted and whether it succeeded, and the exit code. */
  datatype ResetOutcome = ResetOutcome(
    asked: bool, removed: Option<string>, deletionAttempted: bool, passwordDeleted: bool, exitCode: int)

  /** `performReset`: remove the data directory if it exists, then delete the
      password; a throw before the deletion starts exits 1, and the deletion
      exits 0 whether it succeeds or fails. */
  method PerformReset(env: ResetEnv) returns (o: ResetOutcome)
    ensures !o.asked
    ensures o.exitCode == 1 <==> (env.dataExists && env.removeThrows) || !env.keychainLoads
    ensures o.exitCode == 0 <==> o.exitCode != 1
    ensures o.removed.Some? <==> env.dataExists && !env.removeThrows
    ensures o.removed.Some? ==> o.removed.value == DataPath(env.packaged, env.userData)
    ensures o.deletionAttempted <==> o.exitCode == 0
    ensures o.passwordDeleted <==> o.deletionAttempted && env.keychainDeletes
  {
    var path := DataPath(env.packaged, env.userData);
    var removed: Option<string> := None;
    if env.dataExists {
      if env.removeThrows {
        return ResetOutcome(false, None, false, false, 1);
      }
      removed := Some(path);
    }
    if !env.keychainLoads {
      return ResetOutcome(false, removed, false, false, 1);
    }
    return ResetOutcome(false, removed, true, env.keychainDeletes, 0);
  }

  /** The script: reset at once when the flag is given, else ask and reset only
      on `y`; cancelling exits 0 without touching anything. */
  method RunReset(argv: seq<string>, answer: string, env: ResetEnv) returns (o: ResetOutcome)
    ensures o.asked <==> !HasConfirmFlag(argv)
    ensures o.asked && !Confirmed(answer) ==> o == ResetOutcome(true, None, false, false, 0)
    ensures HasConfirmFlag(argv) || Confirmed(answer) ==>
      (o.exitCode == 1 <==> (env.dataExists && env.removeThrows) || !env.keychainLoads)
      && (o.removed.Some? <==> env.dataExists && !env.removeThrows)
    ensures o.exitCode == 0 || o.exitCode == 1
    ensures o.removed.Some? ==> o.removed.value == DataPath(env.packaged, env.userData)
    ensures o.deletionAttempted ==> o.exitCode == 0
    ensures HasConfirmFlag(argv) || Confirmed(answer) ==>
      (o.deletionAttempted <==> o.exitCode == 0)
      && (o.passwordDeleted <==> o.deletionAttempted && env.keychainDeletes)
  {
    if HasConfirmFlag(argv) {
      o := PerformReset(env);
      return;
    }
    if !Confirmed(answer) {
      return ResetOutcome(true, None, false, false, 0);
    }
    o := PerformReset(env);
    o := o.(asked := true);
  }

  /** `yes` does not confirm; a flag before the script's own arguments is not seen. */
  lemma ConfirmationExamples()
    ensures !Confirmed("yes") && Confirmed("Y") && !Confirmed("")
    ensures !HasConfirmFlag(["-y", "reset.js"]) && HasConfirmFlag(["node", "reset.js", "-y"])
  {
    assert ["node", "reset.js", "-y"][2] == "-y";
  }
}
