/**
 * Choosing the package manager, `_setup_package_manager` (docesetup.py:80-106):
 * a table from the distribution id, with probes of the binaries on `PATH` for
 * the Fedora family and for ids of no known family. `onPath` is the set of
 * names `shutil.which` finds.
 */
module PackageManager {
  import opened Text

  /** The manager's name, its index-refresh command and its install prefix. */
  datatype Manager = Manager(name: string, update: string, install: string)

  const DebianFamily: seq<string> := ["ubuntu", "debian", "linuxmint", "pop", "elementary", "zorin"]
  const FedoraFamily: seq<string> := ["fedora", "centos", "rhel", "rocky", "almalinux"]
  const ArchFamily: seq<string> := ["arch", "manjaro", "endeavouros"]
  const SuseFamily: seq<string> := ["opensuse", "suse"]

  const Apt := Manager("apt-get", "apt-get update", "apt-get install -y")
  const Dnf := Manager("dnf", "dnf check-update", "dnf install -y")
  const Yum := Manager("yum", "yum check-update", "yum install -y")
  const Pacman := Manager("pacman", "pacman -Sy", "pacman -S --noconfirm")
  const Zypper := Manager("zypper", "zypper refresh", "zypper install -y")
  /** No manager found: the commands only say that updating and installing are unavailable. */
  const NoManager := Manager("", "echo 'Atualização não disponível'", "echo 'Instalação não disponível'")

  /** The managers probed, in this order, for an id of no known family. */
  const Probes: seq<Manager> := [Apt, Dnf, Yum, Pacman, Zypper]

  predicate KnownFamily(distro: string) {
    distro in DebianFamily || distro in FedoraFamily || distro in ArchFamily || distro in SuseFamily
  }

  /** The commands of `m` run `m` itself: its name followed by a space. */
  predicate RunsItself(m: Manager) {
    m.name != "" && StartsWith(m.update, m.name + " ") && StartsWith(m.install, m.name + " ")
  }

  lemma AptRunsItself()
    ensures RunsItself(Apt)
  {
    assert Apt.update[..8] == "apt-get " && Apt.install[..8] == "apt-get ";
  }

  lemma DnfRunsItself()
    ensures RunsItself(Dnf)
  {
    assert Dnf.update[..4] == "dnf " && Dnf.install[..4] == "dnf ";
  }

  lemma YumRunsItself()
    ensures RunsItself(Yum)
  {
    assert Yum.update[..4] == "yum " && Yum.install[..4] == "yum ";
  }

  lemma PacmanRunsItself()
    ensures RunsItself(Pacman)
  {
    assert Pacman.update[..7] == "pacman " && Pacman.install[..7] == "pacman ";
  }

  lemma ZypperRunsItself()
    ensures RunsItself(Zypper)
  {
    assert Zypper.update[..7] == "zypper " && Zypper.install[..7] == "zypper ";
  }

  lemma ProbesRunThemselves()
    ensures forall i :: 0 <= i < |Probes| ==> RunsItself(Probes[i])
    ensures NoManager.name == "" && NoManager !in Probes
  {
    AptRunsItself();
    DnfRunsItself();
    YumRunsItself();
    PacmanRunsItself();
    ZypperRunsItself();
  }

  /**
   * `_setup_package_manager`. It never fails: the answer is always one of the
   * five managers, whose commands run that manager, or the no-op `NoManager`.
   */
  function SetupPackageManager(distro: string, onPath: set<string>): (m: Manager)
    ensures m in Probes || m == NoManager
    ensures m.name == "" <==> m == NoManager
    ensures m.name != "" ==> StartsWith(m.update, m.name + " ") && StartsWith(m.install, m.name + " ")
  {
    ProbesRunThemselves();
    if distro in DebianFamily then Apt
    else if distro in FedoraFamily then (if "dnf" in onPath then Dnf else Yum)
    else if distro in ArchFamily then Pacman
    else if distro in SuseFamily then Zypper
    else if "apt-get" in onPath then Apt
    else if "dnf" in onPath then Dnf
    else if "yum" in onPath then Yum
    else if "pacman" in onPath then Pacman
    else if "zypper" in onPath then Zypper
    else NoManager
  }

  /** The first of `probes` whose binary is on `PATH`, or `NoManager`. */
  function FirstPresent(probes: seq<Manager>, onPath: set<string>): Manager {
    if probes == [] then NoManager
    else if probes[0].name in onPath then probes[0]
    else FirstPresent(probes[1..], onPath)
  }

  /** `FirstPresent` picks a probe on `PATH` after only absent ones, and finds nothing only when all are absent. */
  lemma {:induction false} FirstPresentPicksFirst(probes: seq<Manager>, onPath: set<string>)
    requires forall i :: 0 <= i < |probes| ==> probes[i] != NoManager
    ensures var m := FirstPresent(probes, onPath);
      (m == NoManager <==> forall i :: 0 <= i < |probes| ==> probes[i].name !in onPath) &&
      (m != NoManager ==> exists i :: 0 <= i < |probes| && m == probes[i] && m.name in onPath &&
                                     (forall j :: 0 <= j < i ==> probes[j].name !in onPath))
  {
    if probes != [] && probes[0].name !in onPath {
      var rest := probes[1..];
      FirstPresentPicksFirst(rest, onPath);
      var m := FirstPresent(rest, onPath);
      if m != NoManager {
        var i :| 0 <= i < |rest| && m == rest[i] && m.name in onPath &&
          forall j :: 0 <= j < i ==> rest[j].name !in onPath;
        assert probes[i + 1] == rest[i];
        forall j | 0 <= j < i + 1 ensures probes[j].name !in onPath {
          if j > 0 {
            assert probes[j] == rest[j - 1];
          }
        }
      } else {
        forall i | 0 <= i < |probes| ensures probes[i].name !in onPath {
          if i > 0 {
            assert probes[i] == rest[i - 1];
          }
        }
      }
    }
  }

  /** For an id of no known family, the answer is the first of apt-get, dnf, yum, pacman, zypper on `PATH`. */
  lemma UnknownDistroProbes(distro: string, onPath: set<string>)
    requires !KnownFamily(distro)
    ensures SetupPackageManager(distro, onPath) == FirstPresent(Probes, onPath)
    ensures var m := SetupPackageManager(distro, onPath);
      (m == NoManager <==> forall i :: 0 <= i < |Probes| ==> Probes[i].name !in onPath) &&
      (m != NoManager ==> m.name in onPath)
  {
    assert Probes[1..] == [Dnf, Yum, Pacman, Zypper];
    assert Probes[1..][1..] == [Yum, Pacman, Zypper];
    assert Probes[1..][1..][1..] == [Pacman, Zypper];
    assert Probes[1..][1..][1..][1..] == [Zypper];
    assert Probes[1..][1..][1..][1..][1..] == [];
    FirstPresentPicksFirst(Probes, onPath);
  }

  /**
   * For a known family the `PATH` does not matter, except that the Fedora
   * family takes `dnf` exactly when it is present and `yum` otherwise.
   */
  lemma KnownFamilyIgnoresPath(distro: string, onPath: set<string>, otherPath: set<string>)
    requires KnownFamily(distro)
    requires distro in FedoraFamily ==> ("dnf" in onPath <==> "dnf" in otherPath)
    ensures SetupPackageManager(distro, onPath) == SetupPackageManager(distro, otherPath)
    ensures distro in FedoraFamily ==>
      SetupPackageManager(distro, onPath) == if "dnf" in onPath then Dnf else Yum
  {
  }
}
