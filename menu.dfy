/**
 * `run` (docesetup.py:732-814) on the plain-console path: the system update
 * and the basic dependencies, then the main menu loop. The menu is the list
 * of options, each a key and the action it runs; the choice is the raw line
 * typed. `8` runs every option in order and asks about a reboot, `9` leaves,
 * anything else runs the option with that key, if any, and waits for Enter.
 */
module Menu {
  import opened Files
  import opened Wrappers
  import opened Prompts
  import opened Actions
  import PackageManager
  import SshPort
  import Fstab
  import Locale

  /** The dependencies `run` installs when their binary is not on PATH. */
  const BasicDeps: seq<string> := ["wget", "curl", "ca-certificates", "openssl"]

  /** The install commands of `_install_deps` (docesetup.py:123-142), in package order. */
  function DepsCommands(install: string, onPath: set<string>, packages: seq<string>): seq<string> {
    if packages == [] then []
    else
      var n := |packages| - 1;
      DepsCommands(install, onPath, packages[..n]) +
        (if packages[n] in onPath then [] else [install + " " + packages[n]])
  }

  /** The loop of `_install_deps`. */
  method InstallDeps(install: string, onPath: set<string>, packages: seq<string>) returns (commands: seq<string>)
    ensures commands == DepsCommands(install, onPath, packages)
  {
    commands := [];
    for i := 0 to |packages|
      invariant commands == DepsCommands(install, onPath, packages[..i])
    {
      assert packages[..i + 1][..i] == packages[..i];
      if packages[i] !in onPath {
        commands := commands + [install + " " + packages[i]];
      }
    }
    assert packages[..|packages|] == packages;
  }

  /** The packages not on PATH, in order. */
  function Missing(onPath: set<string>, packages: seq<string>): seq<string> {
    if packages == [] then []
    else
      var n := |packages| - 1;
      Missing(onPath, packages[..n]) + (if packages[n] in onPath then [] else [packages[n]])
  }

  /** Exactly the missing packages are installed, each by one command, in order. */
  lemma {:induction false} DepsInstallMissing(install: string, onPath: set<string>, packages: seq<string>)
    ensures |DepsCommands(install, onPath, packages)| == |Missing(onPath, packages)|
    ensures forall i :: 0 <= i < |Missing(onPath, packages)| ==>
      DepsCommands(install, onPath, packages)[i] == install + " " + Missing(onPath, packages)[i]
    ensures forall p :: p in Missing(onPath, packages) <==> p in packages && p !in onPath
  {
    if packages != [] {
      var n := |packages| - 1;
      DepsInstallMissing(install, onPath, packages[..n]);
      assert packages == packages[..n] + [packages[n]];
      forall p ensures p in packages <==> p in packages[..n] || p == packages[n] {
        if p in packages {
          var j :| 0 <= j < |packages| && packages[j] == p;
          if j < n {
            assert packages[..n][j] == p;
          }
        }
      }
    }
  }

  /** A menu option: the key typed to choose it and the action it runs. */
  datatype MenuOption = MenuOption(key: string, action: (World, seq<string>) -> Outcome)

  const AllKey := "8"
  const ExitKey := "9"

  /** Every option reads its lines from the front of the input and only appends commands. */
  ghost predicate WellBehaved(options: seq<MenuOption>) {
    forall i, w, input :: 0 <= i < |options| ==> Proper(options[i].action(w, input), w, input)
  }

  /** The options of `run`, in menu order (docesetup.py:758-766). */
  function Options(m: Machine): seq<MenuOption> {
    [MenuOption("1", (w, input) => ConfigureRootSsh(m, w, input)),
     MenuOption("2", (w, input) => DisableSshTimeout(m, w, input)),
     MenuOption("3", (w, input) => CreateSwap(m, w, input)),
     MenuOption("4", (w, input) => Enable32Bit(m, w, input)),
     MenuOption("5", (w, input) => ConfigureSsl(m, w, input)),
     MenuOption("6", (w, input) => DisableServices(m, w, input)),
     MenuOption("7", (w, input) => ChangeLocale(m, w, input))]
  }

  lemma OptionsWellBehaved(m: Machine)
    ensures WellBehaved(Options(m))
  {
  }

  /** The options from the `k`-th on, one after the other, as option 8 runs them. */
  function RunFrom(options: seq<MenuOption>, k: nat, w: World, input: seq<string>): (r: Outcome)
    requires k <= |options| && WellBehaved(options)
    ensures Proper(r, w, input)
    decreases |options| - k
  {
    if k == |options| then Done(w, input)
    else
      match options[k].action(w, input)
      case Stopped(w1) => Stopped(w1)
      case Done(w1, rest) => RunFrom(options, k + 1, w1, rest)
  }

  /** The action of the first option whose key is `choice`; no action when there is none. */
  function RunMatching(options: seq<MenuOption>, choice: string, w: World, input: seq<string>): (r: Outcome)
    requires WellBehaved(options)
    ensures Proper(r, w, input)
    ensures (forall i :: 0 <= i < |options| ==> options[i].key != choice) ==> r == Done(w, input)
  {
    if options == [] then Done(w, input)
    else if options[0].key == choice then options[0].action(w, input)
    else
      assert WellBehaved(options[1..]) by {
        forall i, w', input' | 0 <= i < |options| - 1
          ensures Proper(options[1..][i].action(w', input'), w', input') {
          assert options[1..][i] == options[i + 1];
        }
      }
      RunMatching(options[1..], choice, w, input)
  }

  /** Option 8 after the choice line: every option, then the reboot question. */
  function RunAllOutcome(options: seq<MenuOption>, w: World, input: seq<string>): (r: Outcome)
    requires WellBehaved(options)
    ensures Proper(r, w, input)
  {
    match RunFrom(options, 0, w, input)
    case Stopped(w1) => Stopped(w1)
    case Done(w1, rest) =>
      match AskOutcome(rest)
      case EndOfInput => Stopped(w1)
      case Answered(reboot, rest2) => Done(if reboot then Issue(w1, ["reboot"]) else w1, rest2)
  }

  /** Any other choice after the choice line: the matching action, then the line that continues. */
  function SingleOutcome(options: seq<MenuOption>, choice: string, w: World, input: seq<string>): (r: Outcome)
    requires WellBehaved(options)
    ensures Proper(r, w, input)
    ensures r.Done? ==> |r.rest| < |input|
  {
    match RunMatching(options, choice, w, input)
    case Stopped(w1) => Stopped(w1)
    case Done(w1, rest) =>
      match ReadLine(rest)
      case EndOfInput => Stopped(w1)
      case Answered(_, rest2) => Done(w1, rest2)
  }

  /**
   * The menu loop from the line `input[0]` on: `Done` when the loop is left by
   * option 8 or 9, `Stopped` when an `input()` meets the end of the input.
   */
  function MenuOutcome(options: seq<MenuOption>, w: World, input: seq<string>): (r: Outcome)
    requires WellBehaved(options)
    ensures Proper(r, w, input)
    decreases |input|
  {
    if input == [] then Stopped(w)
    else
      var choice := input[0];
      var rest := input[1..];
      if choice == AllKey then RunAllOutcome(options, w, rest)
      else if choice == ExitKey then Done(w, rest)
      else
        match SingleOutcome(options, choice, w, rest)
        case Stopped(w1) => Stopped(w1)
        case Done(w1, rest2) => MenuOutcome(options, w1, rest2)
  }

  /** The main menu loop (docesetup.py:771-814). */
  method MenuLoop(options: seq<MenuOption>, w: World, input: seq<string>) returns (r: Outcome)
    requires WellBehaved(options)
    ensures r == MenuOutcome(options, w, input)
  {
    var world := w;
    var remaining := input;
    while true
      invariant MenuOutcome(options, world, remaining) == MenuOutcome(options, w, input)
      decreases |remaining|
    {
      if remaining == [] {
        return Stopped(world);
      }
      var choice := remaining[0];
      remaining := remaining[1..];
      if choice == AllKey {
        var all := RunFrom(options, 0, world, remaining);
        for k := 0 to |options|
          invariant RunFrom(options, k, world, remaining) == all
        {
          var step := options[k].action(world, remaining);
          if step.Stopped? {
            return Stopped(step.world);
          }
          world, remaining := step.world, step.rest;
        }
        var reboot := Ask(remaining);
        if reboot.EndOfInput? {
          return Stopped(world);
        }
        if reboot.value {
          world := Issue(world, ["reboot"]);
        }
        return Done(world, reboot.rest);
      } else if choice == ExitKey {
        return Done(world, remaining);
      }
      var step := Done(world, remaining);
      for k := 0 to |options|
        invariant RunMatching(options[k..], choice, world, remaining) == RunMatching(options, choice, world, remaining)
      {
        if options[k].key == choice {
          step := options[k].action(world, remaining);
          break;
        }
      }
      if step.Stopped? {
        return Stopped(step.world);
      }
      world, remaining := step.world, step.rest;
      if remaining == [] {
        return Stopped(world);
      }
      remaining := remaining[1..];
    }
  }

  /** What `run` does after the root check: update the package index, install what is missing, then the menu. */
  function RunOutcome(m: Machine, w: World, input: seq<string>): (r: Outcome)
    ensures Proper(r, w, input)
  {
    var manager := PackageManager.SetupPackageManager(m.distro, m.onPath);
    var prepared := Issue(w, [manager.update] + DepsCommands(manager.install, m.onPath, BasicDeps));
    OptionsWellBehaved(m);
    MenuOutcome(Options(m), prepared, input)
  }

  /** `run`. */
  method Run(m: Machine, w: World, input: seq<string>) returns (r: Outcome)
    ensures r == RunOutcome(m, w, input)
  {
    var manager := PackageManager.SetupPackageManager(m.distro, m.onPath);
    var deps := InstallDeps(manager.install, m.onPath, BasicDeps);
    OptionsWellBehaved(m);
    r := MenuLoop(Options(m), Issue(w, [manager.update] + deps), input);
  }

  /** Option 9 leaves at once: nothing is changed and nothing more is read. */
  lemma ExitLeaves(options: seq<MenuOption>, w: World, rest: seq<string>)
    requires WellBehaved(options)
    ensures MenuOutcome(options, w, [ExitKey] + rest) == Done(w, rest)
  {
    assert ([ExitKey] + rest)[1..] == rest;
  }

  /** A line that is no key runs nothing: after the Enter line the menu starts over. */
  lemma UnknownChoiceSkipped(options: seq<MenuOption>, w: World, choice: string, enter: string, rest: seq<string>)
    requires WellBehaved(options) && choice != AllKey && choice != ExitKey
    requires forall i :: 0 <= i < |options| ==> options[i].key != choice
    ensures MenuOutcome(options, w, [choice, enter] + rest) == MenuOutcome(options, w, rest)
  {
    var input := [choice, enter] + rest;
    assert input[1..] == [enter] + rest;
    assert ([enter] + rest)[1..] == rest;
  }

  /** Typing the key of an option runs its action, when no earlier option has that key. */
  lemma {:induction false} MatchingRunsOption(options: seq<MenuOption>, i: nat, w: World, input: seq<string>)
    requires WellBehaved(options) && i < |options|
    requires forall j :: 0 <= j < i ==> options[j].key != options[i].key
    ensures RunMatching(options, options[i].key, w, input) == options[i].action(w, input)
  {
    if i > 0 {
      assert WellBehaved(options[1..]) by {
        forall j, w', input' | 0 <= j < |options| - 1
          ensures Proper(options[1..][j].action(w', input'), w', input') {
          assert options[1..][j] == options[j + 1];
        }
      }
      assert options[1..][i - 1] == options[i];
      MatchingRunsOption(options[1..], i - 1, w, input);
    }
  }

  /** The keys of the menu are `1` to `7`, in order, and distinct from `8` and `9`. */
  lemma OptionKeys(m: Machine)
    ensures |Options(m)| == 7
    ensures forall i :: 0 <= i < 7 ==> Options(m)[i].key == ShowNat(i + 1)
    ensures forall i :: 0 <= i < 7 ==> Options(m)[i].key != AllKey && Options(m)[i].key != ExitKey
  {
  }

  /**
   * Option 8 never comes back to the menu: it ends after every option has run
   * and the reboot question is answered, and the answer alone decides whether
   * `reboot` is issued.
   */
  lemma RunAllEnds(options: seq<MenuOption>, w: World, rest: seq<string>)
    requires WellBehaved(options)
    ensures var r := MenuOutcome(options, w, [AllKey] + rest);
      var all := RunFrom(options, 0, w, rest);
      if all.Stopped? then r == Stopped(all.world)
      else
        var reboot := AskOutcome(all.rest);
        if reboot.EndOfInput? then r == Stopped(all.world)
        else if reboot.value then r == Done(Issue(all.world, ["reboot"]), reboot.rest)
        else r == Done(all.world, reboot.rest)
  {
    assert ([AllKey] + rest)[1..] == rest;
  }

  /** The only files the menu may write. */
  predicate Managed(p: string) {
    p == SshPort.SshdConfigPath || p == Fstab.FstabPath || p == CronPath ||
    p == Locale.LocaleGenPath || p == Locale.LocaleConfPath
  }

  /** Every file outside the managed ones is kept as it was. */
  predicate KeepsUnmanaged(fs: FileSystem, r: FileSystem) {
    forall p :: p in fs && !Managed(p) ==> p in r && r[p] == fs[p]
  }

  /** Every option writes managed files only. */
  ghost predicate Confined(options: seq<MenuOption>) {
    forall i, w: World, input :: 0 <= i < |options| ==> KeepsUnmanaged(w.files, options[i].action(w, input).world.files)
  }

  lemma OptionsConfined(m: Machine)
    ensures Confined(Options(m))
  {
  }

  lemma {:induction false} RunFromConfined(options: seq<MenuOption>, k: nat, w: World, input: seq<string>)
    requires k <= |options| && WellBehaved(options) && Confined(options)
    ensures KeepsUnmanaged(w.files, RunFrom(options, k, w, input).world.files)
    decreases |options| - k
  {
    if k < |options| {
      var step := options[k].action(w, input);
      if step.Done? {
        RunFromConfined(options, k + 1, step.world, step.rest);
      }
    }
  }

  lemma {:induction false} RunMatchingConfined(options: seq<MenuOption>, choice: string, w: World, input: seq<string>)
    requires WellBehaved(options) && Confined(options)
    ensures KeepsUnmanaged(w.files, RunMatching(options, choice, w, input).world.files)
  {
    if options != [] && options[0].key != choice {
      assert WellBehaved(options[1..]) && Confined(options[1..]) by {
        forall j, w', input' | 0 <= j < |options| - 1
          ensures Proper(options[1..][j].action(w', input'), w', input')
          ensures KeepsUnmanaged(w'.files, options[1..][j].action(w', input').world.files) {
          assert options[1..][j] == options[j + 1];
        }
      }
      RunMatchingConfined(options[1..], choice, w, input);
    }
  }

  /** Whatever is typed, the menu writes no file other than the managed ones. */
  lemma {:induction false} MenuConfined(options: seq<MenuOption>, w: World, input: seq<string>)
    requires WellBehaved(options) && Confined(options)
    ensures KeepsUnmanaged(w.files, MenuOutcome(options, w, input).world.files)
    decreases |input|
  {
    if input != [] {
      var choice := input[0];
      var rest := input[1..];
      if choice == AllKey {
        RunFromConfined(options, 0, w, rest);
      } else if choice != ExitKey {
        RunMatchingConfined(options, choice, w, rest);
        var single := SingleOutcome(options, choice, w, rest);
        if single.Done? {
          MenuConfined(options, single.world, single.rest);
        }
      }
    }
  }

  /** A whole run of the script writes no file other than sshd_config, fstab, the certbot cron job and the two locale files. */
  lemma RunConfined(m: Machine, w: World, input: seq<string>)
    ensures KeepsUnmanaged(w.files, RunOutcome(m, w, input).world.files)
  {
    OptionsWellBehaved(m);
    OptionsConfined(m);
    var manager := PackageManager.SetupPackageManager(m.distro, m.onPath);
    var prepared := Issue(w, [manager.update] + DepsCommands(manager.install, m.onPath, BasicDeps));
    MenuConfined(Options(m), prepared, input);
  }
}
