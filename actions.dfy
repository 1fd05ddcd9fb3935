/**
 * The seven menu actions of docesetup.py (lines 229-712) on the plain-console
 * path. An action reads the lines the user types, may edit files and issues
 * shell commands; the commands are recorded in order, their effects are not
 * modelled. Each action ends by returning with the lines still unread, or by
 * an `input()` at the end of the input, whose `EOFError` ends the script.
 */
module Actions {
  import opened Text
  import opened Files
  import opened Wrappers
  import opened Prompts
  import ConfigEditor
  import Fstab
  import Locale
  import Services
  import PackageManager
  import SshPort

  /** An account as `pwd.getpwall()` lists it. */
  datatype User = User(name: string, uid: int)

  /**
   * What the script learns from the machine other than files: the detected
   * distribution id, the programs on PATH, the stripped output of
   * `swapon --show`, the accounts in `pwd.getpwall()` order, and the texts that
   * `ipaddress.ip_address` accepts.
   */
  datatype Machine = Machine(distro: string, onPath: set<string>, swapShow: string, users: seq<User>, validIps: set<string>)

  /** The files and the shell commands issued so far, in order. */
  datatype World = World(files: FileSystem, commands: seq<string>)

  /** How an action ends: returned with the unread lines, or stopped by the end of the input. */
  datatype Outcome = Done(world: World, rest: seq<string>) | Stopped(world: World)

  function Issue(w: World, commands: seq<string>): (r: World)
    ensures r.files == w.files && r.commands == w.commands + commands
  {
    World(w.files, w.commands + commands)
  }

  /** An action reads its lines from the front of the input and only appends commands. */
  predicate Proper(r: Outcome, w: World, input: seq<string>) {
    (r.Done? ==> |r.rest| <= |input| && r.rest == input[|input| - |r.rest|..]) &&
    w.commands <= r.world.commands
  }

  /** Files other than `path` are kept as they were. */
  predicate KeepsOthers(fs: FileSystem, r: FileSystem, path: string) {
    forall p :: p in fs && p != path ==> p in r && r[p] == fs[p]
  }

  const RestartSsh := "systemctl restart sshd || service sshd restart || /etc/init.d/ssh restart"

  // ---------------------------------------------------------------- option 1

  /**
   * The two settings `configure_root_ssh` writes into sshd_config, with the
   * corrected upsert: afterwards both directives are in the file.
   */
  function RootLoginFiles(fs: FileSystem): (r: FileSystem)
    ensures KeepsOthers(fs, r, SshPort.SshdConfigPath)
    ensures SshPort.SshdConfigPath !in fs ==> r == fs
    ensures SshPort.SshdConfigPath in fs ==>
      SshPort.SshdConfigPath in r &&
      r[SshPort.SshdConfigPath] ==
        ConfigEditor.UpdateLines(ConfigEditor.UpdateLines(fs[SshPort.SshdConfigPath], "PermitRootLogin", "yes"), "PasswordAuthentication", "yes") &&
      ConfigEditor.HoldsSetting(Lines(r[SshPort.SshdConfigPath]), "PermitRootLogin", "yes") &&
      ConfigEditor.HoldsSetting(Lines(r[SshPort.SshdConfigPath]), "PasswordAuthentication", "yes")
  {
    RootLoginNames();
    ConfigEditor.UpdateFileTwice(fs, SshPort.SshdConfigPath, "PermitRootLogin", "yes", "PasswordAuthentication", "yes")
  }

  /** The two directive names are identifiers, and neither is a prefix of the other. */
  lemma RootLoginNames()
    ensures ConfigEditor.IsIdentifier("PermitRootLogin") && ConfigEditor.IsIdentifier("PasswordAuthentication")
    ensures !StartsWith("PermitRootLogin", "PasswordAuthentication") && !StartsWith("PasswordAuthentication", "PermitRootLogin")
  {
    assert "PermitRootLogin"[1] != "PasswordAuthentication"[1];
  }


  function ChpasswdCommand(name: string, password: string): string {
    "echo '" + name + ":" + password + "' | chpasswd"
  }

  /** The accounts that receive the root password too: uid from 1000 up to, not including, 65534. */
  predicate IsRegularUser(u: User) {
    1000 <= u.uid < 65534
  }

  /** The commands setting the password of each regular account, in account order. */
  function PasswordCommands(users: seq<User>, password: string): seq<string> {
    if users == [] then []
    else
      var n := |users| - 1;
      PasswordCommands(users[..n], password) +
        (if IsRegularUser(users[n]) then [ChpasswdCommand(users[n].name, password)] else [])
  }

  /** The loop over `pwd.getpwall()` that propagates the password. */
  method PropagatePassword(users: seq<User>, password: string) returns (commands: seq<string>)
    ensures commands == PasswordCommands(users, password)
  {
    commands := [];
    for i := 0 to |users|
      invariant commands == PasswordCommands(users[..i], password)
    {
      assert users[..i + 1][..i] == users[..i];
      if users[i].uid >= 1000 && users[i].uid < 65534 {
        commands := commands + [ChpasswdCommand(users[i].name, password)];
      }
    }
    assert users[..|users|] == users;
  }

  /** The regular accounts, in order. */
  function RegularUsers(users: seq<User>): seq<User> {
    if users == [] then []
    else
      var n := |users| - 1;
      RegularUsers(users[..n]) + (if IsRegularUser(users[n]) then [users[n]] else [])
  }

  /**
   * One command per regular account and none for the others: the `i`-th
   * command sets the password of the `i`-th regular account.
   */
  lemma {:induction false} PasswordCommandsPerUser(users: seq<User>, password: string)
    ensures |PasswordCommands(users, password)| == |RegularUsers(users)|
    ensures forall i :: 0 <= i < |RegularUsers(users)| ==>
      PasswordCommands(users, password)[i] == ChpasswdCommand(RegularUsers(users)[i].name, password)
    ensures forall u :: u in RegularUsers(users) <==> u in users && IsRegularUser(u)
  {
    if users != [] {
      var n := |users| - 1;
      PasswordCommandsPerUser(users[..n], password);
      assert users == users[..n] + [users[n]];
      forall u ensures u in users <==> u in users[..n] || u == users[n] {
        if u in users {
          var j :| 0 <= j < |users| && users[j] == u;
          if j < n {
            assert users[..n][j] == u;
          }
        }
      }
    }
  }

  /**
   * The password part of `configure_root_ssh`, from the question whether to
   * change the root password on. The password is read like a typed line. An
   * end of input while reading it, or at the question about the other
   * accounts, is caught by the action's own handler, which returns.
   */
  function RootPassword(m: Machine, w: World, input: seq<string>): (r: Outcome)
    ensures Proper(r, w, input) && r.world.files == w.files
  {
    match AskOutcome(input)
    case EndOfInput => Stopped(w)
    case Answered(change, rest) =>
      if !change then Done(Issue(w, [RestartSsh]), rest)
      else
        var r := NewRootPassword(m, w, rest);
        ProperThrough(r, w, w, input, rest);
        r
  }

  /** Reading the new root password and setting it, after the answer yes. */
  function NewRootPassword(m: Machine, w: World, input: seq<string>): (r: Outcome)
    ensures Proper(r, w, input) && r.world.files == w.files
  {
    match ReadLine(input)
    case EndOfInput => Done(w, [])
    case Answered(password, rest) =>
      if password == "" then Done(w, rest)
      else
        var w2 := Issue(w, [ChpasswdCommand("root", password)]);
        var r := OtherAccounts(m, w2, password, rest);
        ProperThrough(r, w, w2, input, rest);
        r
  }

  /**
   * The question whether the other accounts get the same password, after
   * root's was set; then the restart of sshd.
   */
  function OtherAccounts(m: Machine, w: World, password: string, input: seq<string>): (r: Outcome)
    ensures Proper(r, w, input) && r.world.files == w.files
  {
    match AskOutcome(input)
    case EndOfInput => Done(w, [])
    case Answered(everyone, rest) =>
      var w2 := if everyone then Issue(w, PasswordCommands(m.users, password)) else w;
      Done(Issue(w2, [RestartSsh]), rest)
  }

  /** An outcome proper after a later point of the input and of the commands is proper from the start. */
  lemma ProperThrough(r: Outcome, w: World, w2: World, input: seq<string>, mid: seq<string>)
    requires Proper(r, w2, mid) && w.commands <= w2.commands
    requires |mid| <= |input| && mid == input[|input| - |mid|..]
    ensures Proper(r, w, input)
  {
    if r.Done? {
      SuffixOfSuffix(input, mid, r.rest);
    }
  }


  /** `configure_root_ssh` (docesetup.py:229-273). */
  function ConfigureRootSsh(m: Machine, w: World, input: seq<string>): (r: Outcome)
    ensures Proper(r, w, input)
    ensures KeepsOthers(w.files, r.world.files, SshPort.SshdConfigPath)
  {
    match AskOutcome(input)
    case EndOfInput => Stopped(w)
    case Answered(allow, rest) =>
      if !allow then Done(w, rest)
      else RootPassword(m, World(RootLoginFiles(w.files), w.commands), rest)
  }

  /** An empty password is refused: sshd_config is already edited, but no password is set and sshd is not restarted. */
  lemma RootSshEmptyPassword(m: Machine, w: World, yes1: string, yes2: string, rest: seq<string>)
    requires Classify(yes1) == Some(true) && Classify(yes2) == Some(true)
    ensures ConfigureRootSsh(m, w, [yes1, yes2, ""] + rest) == Done(World(RootLoginFiles(w.files), w.commands), rest)
  {
    var input := [yes1, yes2, ""] + rest;
    assert input[1..] == [yes2, ""] + rest;
    assert input[1..][1..] == [""] + rest;
    assert input[1..][1..][1..] == rest;
  }

  /** With a password and yes to the last question: root, then every regular account, then the restart. */
  lemma RootSshPropagates(m: Machine, w: World, yes1: string, yes2: string, password: string, yes3: string, rest: seq<string>)
    requires Classify(yes1) == Some(true) && Classify(yes2) == Some(true) && Classify(yes3) == Some(true)
    requires password != ""
    ensures var r := ConfigureRootSsh(m, w, [yes1, yes2, password, yes3] + rest);
      r.Done? && r.rest == rest && r.world.files == RootLoginFiles(w.files) &&
      r.world.commands == w.commands + [ChpasswdCommand("root", password)] + PasswordCommands(m.users, password) + [RestartSsh]
  {
    var input := [yes1, yes2, password, yes3] + rest;
    assert input[1..] == [yes2, password, yes3] + rest;
    assert input[1..][1..] == [password, yes3] + rest;
    assert input[1..][1..][1..] == [yes3] + rest;
    assert input[1..][1..][1..][1..] == rest;
  }

  // ---------------------------------------------------------------- option 2

  function KeepAliveFiles(fs: FileSystem): (r: FileSystem)
    ensures KeepsOthers(fs, r, SshPort.SshdConfigPath)
    ensures SshPort.SshdConfigPath !in fs ==> r == fs
    ensures SshPort.SshdConfigPath in fs ==>
      SshPort.SshdConfigPath in r &&
      r[SshPort.SshdConfigPath] ==
        ConfigEditor.UpdateLines(ConfigEditor.UpdateLines(fs[SshPort.SshdConfigPath], "ClientAliveInterval", "290"), "ClientAliveCountMax", "63") &&
      ConfigEditor.HoldsSetting(Lines(r[SshPort.SshdConfigPath]), "ClientAliveInterval", "290") &&
      ConfigEditor.HoldsSetting(Lines(r[SshPort.SshdConfigPath]), "ClientAliveCountMax", "63")
  {
    KeepAliveNames();
    ConfigEditor.UpdateFileTwice(fs, SshPort.SshdConfigPath, "ClientAliveInterval", "290", "ClientAliveCountMax", "63")
  }

  /** The two directive names are identifiers, and neither is a prefix of the other. */
  lemma KeepAliveNames()
    ensures ConfigEditor.IsIdentifier("ClientAliveInterval") && ConfigEditor.IsIdentifier("ClientAliveCountMax")
    ensures !StartsWith("ClientAliveInterval", "ClientAliveCountMax") && !StartsWith("ClientAliveCountMax", "ClientAliveInterval")
  {
    assert "ClientAliveInterval"[11] != "ClientAliveCountMax"[11];
  }


  /** `disable_ssh_timeout` (docesetup.py:276-300). */
  function DisableSshTimeout(m: Machine, w: World, input: seq<string>): (r: Outcome)
    ensures Proper(r, w, input)
    ensures SshPort.SshdConfigPath !in w.files ==> r.world == w
    ensures KeepsOthers(w.files, r.world.files, SshPort.SshdConfigPath)
  {
    match AskOutcome(input)
    case EndOfInput => Stopped(w)
    case Answered(yes, rest) =>
      if yes && SshPort.SshdConfigPath in w.files then
        Done(World(KeepAliveFiles(w.files), w.commands + [RestartSsh]), rest)
      else Done(w, rest)
  }

  /**
   * A yes to the question, with sshd_config present, sets both keep-alive
   * directives and restarts sshd; a no, or no sshd_config, changes nothing.
   */
  lemma DisableSshTimeoutAnswers(m: Machine, w: World, input: seq<string>)
    ensures var r := DisableSshTimeout(m, w, input); var a := AskOutcome(input);
      if a.EndOfInput? then r == Stopped(w)
      else if a.value && SshPort.SshdConfigPath in w.files then
        r == Done(World(KeepAliveFiles(w.files), w.commands + [RestartSsh]), a.rest)
      else r == Done(w, a.rest)
  {
  }

  // ---------------------------------------------------------------- option 3

  /** Allocate, protect, format and enable the swap file, in that order. */
  function SwapCommands(size: string): seq<string> {
    ["fallocate -l " + size + " /swapfile", "chmod 600 /swapfile", "mkswap /swapfile", "swapon /swapfile"]
  }

  /** `create_swap` (docesetup.py:302-376). */
  function CreateSwap(m: Machine, w: World, input: seq<string>): (r: Outcome)
    ensures Proper(r, w, input)
    ensures m.swapShow != "" ==> r == Done(w, input)
    ensures KeepsOthers(w.files, r.world.files, Fstab.FstabPath)
    ensures r.world == w ||
      (exists size :: size in Fstab.Sizes &&
        r.world == World(Fstab.UpdateFstab(w.files), w.commands + SwapCommands(size)))
  {
    if m.swapShow != "" then Done(w, input)
    else
      match AskOutcome(input)
      case EndOfInput => Stopped(w)
      case Answered(yes, rest) =>
        if !yes then Done(w, rest)
        else
          var r := ChooseSwap(w, rest);
          ProperThrough(r, w, w, input, rest);
          r
  }

  /** The choice of a size for the swap file, after the answer yes. */
  function ChooseSwap(w: World, input: seq<string>): (r: Outcome)
    ensures Proper(r, w, input)
    ensures KeepsOthers(w.files, r.world.files, Fstab.FstabPath)
    ensures r.world == w ||
      (exists size :: size in Fstab.Sizes &&
        r.world == World(Fstab.UpdateFstab(w.files), w.commands + SwapCommands(size)))
  {
    match SelectOutcome(Fstab.Sizes, input)
    case EndOfInput => Stopped(w)
    case Answered(size, rest) => SwapCreated(w, size, rest)
  }

  /** The swap file of the chosen size, created and listed in fstab. */
  function SwapCreated(w: World, size: string, rest: seq<string>): (r: Outcome)
    requires size in Fstab.Sizes
    ensures r.Done? && r.rest == rest && w.commands <= r.world.commands
    ensures KeepsOthers(w.files, r.world.files, Fstab.FstabPath)
    ensures r.world.files == Fstab.UpdateFstab(w.files)
    ensures r.world.commands == w.commands + SwapCommands(size)
    ensures exists s :: s in Fstab.Sizes &&
                        r.world == World(Fstab.UpdateFstab(w.files), w.commands + SwapCommands(s))
  {
    Done(World(Fstab.UpdateFstab(w.files), w.commands + SwapCommands(size)), rest)
  }

  /** Answering yes and typing `k` creates a swap file of the `k`-th size. */
  lemma CreateSwapTyped(m: Machine, w: World, yes: string, k: nat, rest: seq<string>)
    requires m.swapShow == "" && Classify(yes) == Some(true) && 1 <= k <= |Fstab.Sizes|
    ensures CreateSwap(m, w, [yes, ShowNat(k)] + rest) ==
      Done(World(Fstab.UpdateFstab(w.files), w.commands + SwapCommands(Fstab.Sizes[k - 1])), rest)
  {
    var input := [yes, ShowNat(k)] + rest;
    assert input[1..] == [ShowNat(k)] + rest;
    SelectTyped(Fstab.Sizes, k, rest);
  }

  // ---------------------------------------------------------------- option 4

  const AddI386 := "dpkg --add-architecture i386"
  const AptUpdate := "apt-get update"
  const InstallI386Libs := "apt-get install -y libc6:i386 libncurses5:i386 libstdc++6:i386"
  const FedoraI686 := "dnf install -y glibc.i686 ncurses-libs.i686 libstdc++.i686"
  const ArchLib32 := "pacman -S --noconfirm lib32-glibc lib32-ncurses lib32-gcc-libs"
  const AddI386Failed := "Não foi possível adicionar arquitetura i386"
  const UpdateFailed := "Não foi possível atualizar os repositórios"
  const LibsFailed := "Não foi possível instalar bibliotecas de compatibilidade"

  /** `command || echo 'message'`: the message is shown when the command fails. */
  function OrEcho(command: string, message: string): string {
    command + " || echo '" + message + "'"
  }

  const Arch32Debian: seq<string> := [AddI386, AptUpdate, InstallI386Libs]
  const Arch32Generic: seq<string> :=
    [OrEcho(AddI386, AddI386Failed), OrEcho(AptUpdate, UpdateFailed), OrEcho(InstallI386Libs, LibsFailed)]

  /** The commands of `enable_32bit_arch` for a distribution family (docesetup.py:412-429). */
  function Arch32Commands(distro: string): seq<string> {
    if distro in PackageManager.DebianFamily then Arch32Debian
    else if distro in PackageManager.FedoraFamily then [FedoraI686]
    else if distro in PackageManager.ArchFamily then [ArchLib32]
    else Arch32Generic
  }

  /** An id of no known family runs the Debian steps, each with an `echo` fallback after `||`. */
  lemma Arch32GenericFallsBack(distro: string)
    requires distro !in PackageManager.DebianFamily && distro !in PackageManager.FedoraFamily
    requires distro !in PackageManager.ArchFamily
    ensures var generic := Arch32Commands(distro);
      |generic| == |Arch32Debian| &&
      forall i :: 0 <= i < |generic| ==> StartsWith(generic[i], Arch32Debian[i] + " || echo '")
  {
    forall i | 0 <= i < 3 ensures StartsWith(Arch32Generic[i], Arch32Debian[i] + " || echo '") {
      var c := Arch32Debian[i] + " || echo '";
      assert Arch32Generic[i] == c + Arch32Generic[i][|c|..];
    }
  }

  /** `enable_32bit_arch` (docesetup.py:378-433). */
  function Enable32Bit(m: Machine, w: World, input: seq<string>): (r: Outcome)
    ensures Proper(r, w, input) && r.world.files == w.files
    ensures var a := AskOutcome(input);
      if a.EndOfInput? then r == Stopped(w)
      else r == Done(if a.value then Issue(w, Arch32Commands(m.distro)) else w, a.rest)
  {
    match AskOutcome(input)
    case EndOfInput => Stopped(w)
    case Answered(yes, rest) =>
      if yes then Done(Issue(w, Arch32Commands(m.distro)), rest) else Done(w, rest)
  }

  // ---------------------------------------------------------------- option 5

  const CronPath := "/etc/cron.d/certbot"
  /** The renewal job written to `/etc/cron.d/certbot`. */
  const CertbotCron := "SHELL=/bin/sh\nPATH=/usr/local/sbin:/usr/local/bin:/sbin:/bin:/usr/sbin:/usr/bin\n0 3 * * * root certbot renew --quiet\n"
  /** The word `configure_ssl_certificate` looks for in the chosen method. */
  const DomainWord := "Domínio"
  const DomainMethod := DomainWord + " (recomendado)"
  const IpMethod := "IP (autossignado)"
  const SslMethods: seq<string> := [DomainMethod, IpMethod]

  const CertbotDebian := "apt-get install -y certbot python3-certbot-apache"
  const CertbotFedora := "dnf install -y certbot || yum install -y certbot"
  const CertbotArch := "pacman -S --noconfirm certbot"
  const CertbotAny := "apt-get install -y certbot || dnf install -y certbot || yum install -y certbot || pacman -S --noconfirm certbot"

  function CertbotInstall(distro: string): string {
    if distro in PackageManager.DebianFamily then CertbotDebian
    else if distro in PackageManager.FedoraFamily then CertbotFedora
    else if distro in PackageManager.ArchFamily then CertbotArch
    else CertbotAny
  }

  /** The certbot installation issued before the method is chosen, when certbot is not on PATH. */
  function CertbotSetup(m: Machine): seq<string> {
    if "certbot" in m.onPath then [] else [CertbotInstall(m.distro)]
  }

  const CertonlyStart := "certbot certonly --standalone -d "
  const CertonlyEnd := " --agree-tos --non-interactive"

  function CertonlyCommand(domain: string, email: string): string {
    CertonlyStart + domain + " --email " + email + CertonlyEnd
  }

  const OpensslStart := "openssl req -x509 -nodes -days 365 -newkey rsa:2048 -keyout /etc/ssl/private/selfsigned.key -out /etc/ssl/private/selfsigned.crt -subj '/CN="

  function SelfSignedCommand(ip: string): string {
    OpensslStart + ip + "' -addext 'subjectAltName=IP:" + ip + "'"
  }

  /** `s.replace('.', '')`. */
  function RemoveDots(s: string): (r: string)
    ensures '.' !in r
  {
    if s == [] then []
    else (if s[0] == '.' then [] else [s[0]]) + RemoveDots(s[1..])
  }

  /** The domain test of `configure_ssl_certificate`: empty, or `isdigit()` once the dots are removed. */
  predicate DomainRejected(domain: string) {
    var digits := RemoveDots(domain);
    domain == [] || (digits != [] && forall i :: 0 <= i < |digits| ==> IsDigit(digits[i]))
  }

  lemma {:induction false} RemoveDotsKeeps(s: string)
    ensures forall c :: c in RemoveDots(s) <==> c in s && c != '.'
  {
    if s != [] {
      RemoveDotsKeeps(s[1..]);
      assert s == [s[0]] + s[1..];
    }
  }

  /**
   * A domain is rejected exactly when it is empty, or is made of digits and
   * dots with at least one digit, as an IPv4 address like `10.0.0.1` is.
   */
  lemma DomainRejectedIff(domain: string)
    ensures DomainRejected(domain) <==>
      domain == [] ||
      ((forall i :: 0 <= i < |domain| ==> IsDigit(domain[i]) || domain[i] == '.') &&
       exists i :: 0 <= i < |domain| && IsDigit(domain[i]))
  {
    RemoveDotsKeeps(domain);
    var digits := RemoveDots(domain);
    if domain != [] && (forall i :: 0 <= i < |domain| ==> IsDigit(domain[i]) || domain[i] == '.') &&
       (exists i :: 0 <= i < |domain| && IsDigit(domain[i])) {
      var i :| 0 <= i < |domain| && IsDigit(domain[i]);
      assert domain[i] in digits;
      forall j | 0 <= j < |digits| ensures IsDigit(digits[j]) {
        assert digits[j] in domain;
      }
    }
    if domain != [] && DomainRejected(domain) {
      assert digits[0] in domain;
      forall i | 0 <= i < |domain| ensures IsDigit(domain[i]) || domain[i] == '.' {
        if domain[i] != '.' {
          assert domain[i] in digits;
        }
      }
    }
  }

  /** The domain branch, from the e-mail question on (docesetup.py:470-497). */
  function DomainCertificate(w: World, input: seq<string>): (r: Outcome)
    ensures Proper(r, w, input)
    ensures KeepsOthers(w.files, r.world.files, CronPath)
  {
    match ReadLine(input)
    case EndOfInput => Stopped(w)
    case Answered(email, rest) =>
      match ReadLine(rest)
      case EndOfInput => Stopped(w)
      case Answered(domain, rest2) =>
        if DomainRejected(domain) then Done(w, rest2)
        else Done(World(w.files[CronPath := CertbotCron], w.commands + [CertonlyCommand(domain, email)]), rest2)
  }

  /** The self-signed branch (docesetup.py:499-525); the directory `/etc/ssl/private` it may create is not modelled. */
  function IpCertificate(m: Machine, w: World, input: seq<string>): (r: Outcome)
    ensures Proper(r, w, input) && r.world.files == w.files
  {
    match ReadLine(input)
    case EndOfInput => Stopped(w)
    case Answered(ip, rest) =>
      if ip in m.validIps then Done(Issue(w, [SelfSignedCommand(ip)]), rest) else Done(w, rest)
  }

  /** `configure_ssl_certificate` with the offered methods as a parameter. */
  function ConfigureSslAmong(methods: seq<string>, m: Machine, w: World, input: seq<string>): (r: Outcome)
    ensures Proper(r, w, input)
    ensures KeepsOthers(w.files, r.world.files, CronPath)
  {
    match AskOutcome(input)
    case EndOfInput => Stopped(w)
    case Answered(yes, rest) =>
      if !yes then Done(w, rest)
      else
        var w1 := Issue(w, CertbotSetup(m));
        match SelectOutcome(methods, rest)
        case EndOfInput => Stopped(w1)
        case Answered(choice, rest2) =>
          if Contains(choice, DomainWord) then DomainCertificate(w1, rest2)
          else IpCertificate(m, w1, rest2)
  }

  /** `configure_ssl_certificate` (docesetup.py:435-527). */
  function ConfigureSsl(m: Machine, w: World, input: seq<string>): (r: Outcome)
    ensures Proper(r, w, input)
    ensures KeepsOthers(w.files, r.world.files, CronPath)
  {
    ConfigureSslAmong(SslMethods, m, w, input)
  }

  /** The first method is the domain one, the second is not. */
  lemma MethodNames()
    ensures |SslMethods| == 2
    ensures Contains(SslMethods[0], DomainWord) && !Contains(SslMethods[1], DomainWord)
  {
    assert StartsWith(DomainMethod, DomainWord);
    ContainsFirst(IpMethod, DomainWord);
    assert 'D' !in IpMethod;
  }

  /** Answering yes and typing 1 for a domain method leads to the e-mail and domain questions. */
  lemma SslDomainPath(methods: seq<string>, m: Machine, w: World, yes: string, later: seq<string>)
    requires 1 <= |methods| && Contains(methods[0], DomainWord) && Classify(yes) == Some(true)
    ensures ConfigureSslAmong(methods, m, w, [yes, ShowNat(1)] + later) ==
      DomainCertificate(Issue(w, CertbotSetup(m)), later)
  {
    var input := [yes, ShowNat(1)] + later;
    assert input[1..] == [ShowNat(1)] + later;
    SelectTyped(methods, 1, later);
  }

  /** In `configure_ssl_certificate`, typing 1 chooses the domain method. */
  lemma SslChoosesDomain(m: Machine, w: World, yes: string, later: seq<string>)
    requires Classify(yes) == Some(true)
    ensures ConfigureSsl(m, w, [yes, ShowNat(1)] + later) == DomainCertificate(Issue(w, CertbotSetup(m)), later)
  {
    MethodNames();
    SslDomainPath(SslMethods, m, w, yes, later);
  }

  /** A rejected domain ends the domain branch: no certificate is requested and no file is written. */
  lemma DomainRejectedStops(w: World, email: string, domain: string, rest: seq<string>)
    requires DomainRejected(domain)
    ensures DomainCertificate(w, [email, domain] + rest) == Done(w, rest)
  {
    assert ([email, domain] + rest)[1..] == [domain] + rest;
    assert ([domain] + rest)[1..] == rest;
  }

  /** An accepted domain gets its certificate request and the renewal job. */
  lemma DomainAcceptedCertifies(w: World, email: string, domain: string, rest: seq<string>)
    requires !DomainRejected(domain)
    ensures DomainCertificate(w, [email, domain] + rest) ==
      Done(World(w.files[CronPath := CertbotCron], w.commands + [CertonlyCommand(domain, email)]), rest)
  {
    assert ([email, domain] + rest)[1..] == [domain] + rest;
    assert ([domain] + rest)[1..] == rest;
  }

  /** Choosing the domain method with a rejected domain: only the certbot installation, if any, is issued. */
  lemma SslRejectsDomain(m: Machine, w: World, yes: string, email: string, domain: string, rest: seq<string>)
    requires Classify(yes) == Some(true) && DomainRejected(domain)
    ensures ConfigureSsl(m, w, [yes, ShowNat(1), email, domain] + rest) ==
      Done(World(w.files, w.commands + CertbotSetup(m)), rest)
  {
    assert [yes, ShowNat(1), email, domain] + rest == [yes, ShowNat(1)] + ([email, domain] + rest);
    SslChoosesDomain(m, w, yes, [email, domain] + rest);
    DomainRejectedStops(Issue(w, CertbotSetup(m)), email, domain, rest);
  }

  /** Choosing the domain method with an accepted domain: the certificate request and the renewal job. */
  lemma SslAcceptsDomain(m: Machine, w: World, yes: string, email: string, domain: string, rest: seq<string>)
    requires Classify(yes) == Some(true) && !DomainRejected(domain)
    ensures ConfigureSsl(m, w, [yes, ShowNat(1), email, domain] + rest) ==
      Done(World(w.files[CronPath := CertbotCron], w.commands + CertbotSetup(m) + [CertonlyCommand(domain, email)]), rest)
  {
    assert [yes, ShowNat(1), email, domain] + rest == [yes, ShowNat(1)] + ([email, domain] + rest);
    SslChoosesDomain(m, w, yes, [email, domain] + rest);
    DomainAcceptedCertifies(Issue(w, CertbotSetup(m)), email, domain, rest);
  }

  /**
   * The self-signed branch reads one line: a valid address gets the openssl
   * command, an invalid one cancels with nothing issued, and an end of input
   * ends the script.
   */
  lemma IpCertificateAnswers(m: Machine, w: World, input: seq<string>)
    ensures var r := IpCertificate(m, w, input);
      if input == [] then r == Stopped(w)
      else if input[0] in m.validIps then r == Done(World(w.files, w.commands + [SelfSignedCommand(input[0])]), input[1..])
      else r == Done(w, input[1..])
  {
  }

  /** Answering yes and typing 2 for a method without the domain word leads to the address question. */
  lemma SslIpPath(methods: seq<string>, m: Machine, w: World, yes: string, later: seq<string>)
    requires 2 <= |methods| && !Contains(methods[1], DomainWord) && Classify(yes) == Some(true)
    ensures ConfigureSslAmong(methods, m, w, [yes, ShowNat(2)] + later) ==
      IpCertificate(m, Issue(w, CertbotSetup(m)), later)
  {
    var input := [yes, ShowNat(2)] + later;
    assert input[1..] == [ShowNat(2)] + later;
    SelectTyped(methods, 2, later);
  }

  /** Choosing the self-signed method: the certbot installation, if any, then the openssl command for a valid address only. */
  lemma SslSelfSigned(m: Machine, w: World, yes: string, ip: string, rest: seq<string>)
    requires Classify(yes) == Some(true)
    ensures ConfigureSsl(m, w, [yes, ShowNat(2), ip] + rest) ==
      if ip in m.validIps then Done(World(w.files, w.commands + CertbotSetup(m) + [SelfSignedCommand(ip)]), rest)
      else Done(World(w.files, w.commands + CertbotSetup(m)), rest)
  {
    assert [yes, ShowNat(2), ip] + rest == [yes, ShowNat(2)] + ([ip] + rest);
    MethodNames();
    SslIpPath(SslMethods, m, w, yes, [ip] + rest);
    IpCertificateAnswers(m, Issue(w, CertbotSetup(m)), [ip] + rest);
    assert ([ip] + rest)[1..] == rest;
  }

  // ---------------------------------------------------------------- option 6

  /** `disable_services` with the candidate services as a parameter. */
  function DisableServicesAmong(candidates: seq<string>, w: World, input: seq<string>): (r: Outcome)
    ensures Proper(r, w, input) && r.world.files == w.files
  {
    match AskOutcome(input)
    case EndOfInput => Stopped(w)
    case Answered(yes, rest) =>
      if !yes then Done(w, rest)
      else
        match Services.SelectionOutcome(candidates, rest)
        case EndOfInput => Stopped(w)
        case Answered(selected, rest2) =>
          if selected == [] then Done(w, rest2)
          else Done(Issue(w, Services.DisableCommandsOf(selected)), rest2)
  }

  /** `disable_services` (docesetup.py:529-578). */
  function DisableServices(m: Machine, w: World, input: seq<string>): (r: Outcome)
    ensures Proper(r, w, input) && r.world.files == w.files
  {
    DisableServicesAmong(Services.Candidates, w, input)
  }

  /**
   * Answering yes to the first question hands the following lines to the
   * question per candidate; the commands are those for the services answered
   * with yes, in table order.
   */
  lemma DisableServicesAnswers(candidates: seq<string>, w: World, yes: string, later: seq<string>)
    requires Classify(yes) == Some(true)
    ensures var a := Services.AskAll(|candidates|, later);
      DisableServicesAmong(candidates, w, [yes] + later) ==
        if a.EndOfInput? then Stopped(w)
        else Done(Issue(w, Services.DisableCommandsOf(Services.Chosen(candidates, a.value))), a.rest)
  {
    assert ([yes] + later)[1..] == later;
    assert AskOutcome([yes] + later) == Answered(true, later);
    var a := Services.AskAll(|candidates|, later);
    Services.SelectFromAnswers(candidates, 0, [], later);
    if a.Answered? {
      var selected := Services.Chosen(candidates, a.value);
      assert candidates[0..] == candidates;
      assert [] + selected == selected;
      assert Services.SelectionOutcome(candidates, later) == Answered(selected, a.rest);
      if selected == [] {
        assert Issue(w, Services.DisableCommandsOf(selected)) == w;
      }
    }
  }

  // ---------------------------------------------------------------- option 7

  /** Files other than the two locale files are kept as they were. */
  predicate KeepsLocaleOthers(fs: FileSystem, r: FileSystem) {
    forall p :: p in fs && p != Locale.LocaleGenPath && p != Locale.LocaleConfPath ==> p in r && r[p] == fs[p]
  }

  /** The file at `p` is as it was, or still absent. */
  predicate SameAt(fs: FileSystem, r: FileSystem, p: string) {
    (p in fs <==> p in r) && (p in fs ==> r[p] == fs[p])
  }

  /** `f"{new_locale} UTF-8\n"`, the locale.gen line of `change_locale`. */
  function GenLine(locale: string): string {
    locale + " UTF-8\n"
  }

  /** `f"LANG={new_locale}\n"`, the locale.conf text of `change_locale`. */
  function ConfText(locale: string): string {
    "LANG=" + locale + "\n"
  }

  /** The Debian family: uncomment the locale in locale.gen, or write the file with its line when missing. */
  function DebianLocale(w: World, locale: string): (r: World)
    ensures SameAt(w.files, r.files, Locale.LocaleConfPath) && KeepsLocaleOthers(w.files, r.files)
    ensures Locale.LocaleGenPath in r.files
    ensures r.files[Locale.LocaleGenPath] ==
      if Locale.LocaleGenPath in w.files then Locale.Uncomment(w.files[Locale.LocaleGenPath], true, locale)
      else GenLine(locale)
    ensures r.commands == w.commands + ["apt-get install -y locales", "locale-gen",
      "update-locale LANG=" + locale + " LANGUAGE=" + locale + " LC_ALL=" + locale]
  {
    var gen := if Locale.LocaleGenPath in w.files
      then Locale.Uncomment(w.files[Locale.LocaleGenPath], true, locale)
      else GenLine(locale);
    World(w.files[Locale.LocaleGenPath := gen],
      w.commands + ["apt-get install -y locales", "locale-gen",
        "update-locale LANG=" + locale + " LANGUAGE=" + locale + " LC_ALL=" + locale])
  }

  /** The Fedora family: the language pack of the language code, then the locale; no file is touched. */
  function FedoraLocale(w: World, locale: string): (r: World)
    ensures r.files == w.files
    ensures r.commands == w.commands +
      ["dnf install -y glibc-langpack-" + Locale.LanguageCode(locale) +
         " || yum install -y glibc-langpack-" + Locale.LanguageCode(locale),
       "localectl set-locale LANG=" + locale]
  {
    var lang := Locale.LanguageCode(locale);
    Issue(w, ["dnf install -y glibc-langpack-" + lang + " || yum install -y glibc-langpack-" + lang,
      "localectl set-locale LANG=" + locale])
  }

  /** The Arch family: locale.conf names the locale, and locale.gen is replaced by its line. */
  function ArchLocale(w: World, locale: string): (r: World)
    ensures KeepsLocaleOthers(w.files, r.files)
    ensures Locale.LocaleConfPath in r.files && r.files[Locale.LocaleConfPath] == ConfText(locale)
    ensures Locale.LocaleGenPath in r.files && r.files[Locale.LocaleGenPath] == GenLine(locale)
    ensures r.commands == w.commands + ["locale-gen"]
  {
    World(w.files[Locale.LocaleConfPath := ConfText(locale)][Locale.LocaleGenPath := GenLine(locale)],
      w.commands + ["locale-gen"])
  }

  /**
   * Any other id: locale.conf names the locale; with locale-gen on PATH the
   * line is appended to locale.gen and locale-gen runs, otherwise nothing else.
   */
  function GenericLocale(localeGen: bool, w: World, locale: string): (r: World)
    ensures KeepsLocaleOthers(w.files, r.files)
    ensures Locale.LocaleConfPath in r.files && r.files[Locale.LocaleConfPath] == ConfText(locale)
    ensures localeGen ==>
      Locale.LocaleGenPath in r.files &&
      r.files[Locale.LocaleGenPath] ==
        (if Locale.LocaleGenPath in w.files then w.files[Locale.LocaleGenPath] else "") + GenLine(locale) &&
      r.commands == w.commands + ["locale-gen"]
    ensures !localeGen ==> SameAt(w.files, r.files, Locale.LocaleGenPath) && r.commands == w.commands
  {
    var conf := w.files[Locale.LocaleConfPath := ConfText(locale)];
    if localeGen then
      var prior := if Locale.LocaleGenPath in w.files then w.files[Locale.LocaleGenPath] else "";
      World(conf[Locale.LocaleGenPath := prior + GenLine(locale)], w.commands + ["locale-gen"])
    else World(conf, w.commands)
  }

  /**
   * The files and commands `change_locale` produces for the chosen locale
   * (docesetup.py:661-702): the branch of the distribution's family, and the
   * generic one for any other id.
   */
  function ApplyLocale(m: Machine, w: World, locale: string): (r: World)
    ensures w.commands <= r.commands
    ensures KeepsLocaleOthers(w.files, r.files)
    ensures r == if m.distro in PackageManager.DebianFamily then DebianLocale(w, locale)
      else if m.distro in PackageManager.FedoraFamily then FedoraLocale(w, locale)
      else if m.distro in PackageManager.ArchFamily then ArchLocale(w, locale)
      else GenericLocale("locale-gen" in m.onPath, w, locale)
  {
    if m.distro in PackageManager.DebianFamily then DebianLocale(w, locale)
    else if m.distro in PackageManager.FedoraFamily then FedoraLocale(w, locale)
    else if m.distro in PackageManager.ArchFamily then ArchLocale(w, locale)
    else GenericLocale("locale-gen" in m.onPath, w, locale)
  }

  /** `change_locale` over a table of locales and their descriptions. */
  function ChangeLocaleAmong(table: seq<(string, string)>, m: Machine, w: World, input: seq<string>): (r: Outcome)
    ensures Proper(r, w, input)
    ensures KeepsLocaleOthers(w.files, r.world.files)
  {
    var a := AskOutcome(input);
    if a.EndOfInput? then Stopped(w)
    else if !a.value then Done(w, a.rest)
    else
      var r := ChooseLocale(table, m, w, a.rest);
      ProperThrough(r, w, w, input, a.rest);
      r
  }

  /** The choice of a locale from the table, after the answer yes. */
  function ChooseLocale(table: seq<(string, string)>, m: Machine, w: World, input: seq<string>): (r: Outcome)
    ensures Proper(r, w, input)
    ensures KeepsLocaleOthers(w.files, r.world.files)
  {
    match SelectOutcome(Locale.Descriptions(table), input)
    case EndOfInput => Stopped(w)
    case Answered(desc, rest) => Done(ApplyChosen(table, m, w, desc), rest)
  }

  /** The locale whose description was chosen, applied. */
  function ApplyChosen(table: seq<(string, string)>, m: Machine, w: World, desc: string): (r: World)
    requires desc in Locale.Descriptions(table)
    ensures w.commands <= r.commands
    ensures KeepsLocaleOthers(w.files, r.files)
  {
    ApplyLocale(m, w, Locale.LocaleFor(table, desc).value)
  }

  /** `change_locale` (docesetup.py:580-712). */
  function ChangeLocale(m: Machine, w: World, input: seq<string>): (r: Outcome)
    ensures Proper(r, w, input)
    ensures KeepsLocaleOthers(w.files, r.world.files)
  {
    ChangeLocaleAmong(Locale.Locales, m, w, input)
  }

  /** Answering yes and typing `k` applies the `k`-th locale of the table. */
  lemma ChangeLocaleTyped(m: Machine, w: World, yes: string, k: nat, rest: seq<string>)
    requires Classify(yes) == Some(true) && 1 <= k <= |Locale.Locales|
    ensures ChangeLocale(m, w, [yes, ShowNat(k)] + rest) == Done(ApplyLocale(m, w, Locale.Locales[k - 1].0), rest)
  {
    var input := [yes, ShowNat(k)] + rest;
    assert input[1..] == [ShowNat(k)] + rest;
    SelectTyped(Locale.Descriptions(Locale.Locales), k, rest);
    Locale.LocalesDistinct();
    Locale.LocaleForEntry(Locale.Locales, k - 1);
  }
}
