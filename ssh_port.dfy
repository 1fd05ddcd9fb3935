/**
 * The SSH port the daemon is configured with, `_detect_ssh_port`
 * (docesetup.py:108-115): the second word of the first line of
 * `/etc/ssh/sshd_config` whose stripped text starts with `Port `, else `22`.
 */
module SshPort {
  import opened Text
  import opened Files

  const SshdConfigPath := "/etc/ssh/sshd_config"
  const DefaultPort := "22"

  /** The stripped line starts with `Port `; a commented `#Port` line does not. */
  predicate IsPortLine(line: string) {
    StartsWith(Strip(line), "Port ")
  }

  lemma {:induction false} WordsNonEmpty(s: string, k: int)
    requires 0 <= k < |s| && !IsSpace(s[k])
    ensures |Words(s)| >= 1
  {
    var t := TrimStart(s);
    assert k >= |s| - |t|;
  }

  /** A port line always has a second word, so `split()[1]` cannot fail. */
  lemma PortLineHasToken(line: string)
    requires IsPortLine(line)
    ensures |Words(Strip(line))| >= 2
  {
    var t := Strip(line);
    assert t[..5] == "Port ";
    assert TrimStart(t) == t;
    assert WordLen(t) == 4 by {
      assert t[1..][1..][1..][1..] == t[4..];
      assert IsSpace(t[4]);
    }
    assert |t| - 1 > 4 by {
      assert !IsSpace(t[|t| - 1]);
    }
    WordsNonEmpty(t[4..], |t| - 5);
    assert Words(t) == [t[..4]] + Words(t[4..]);
  }

  /** The word the source returns for a port line. */
  function PortToken(line: string): string
    requires IsPortLine(line)
  {
    PortLineHasToken(line);
    Words(Strip(line))[1]
  }

  lemma TrimStartUnchanged(s: string)
    requires s != [] && !IsSpace(s[0])
    ensures TrimStart(s) == s
  {
  }

  lemma TrimStartAfterSpace(w: string)
    requires w != [] && !IsSpace(w[0])
    ensures TrimStart(" " + w) == w
  {
    AfterFirst(' ', w);
  }

  /** A space and then one word split into that word alone. */
  lemma WordsOfSpacedWord(w: string)
    requires w != [] && forall i :: 0 <= i < |w| ==> !IsSpace(w[i])
    ensures Words(" " + w) == [w]
  {
    TrimStartAfterSpace(w);
    WordLenAll(w);
    WordsStep(" " + w);
    WholeSlice(w);
    WordsOfNothing();
    WholeSlice([w]);
  }

  lemma WordLenOfPortLine(rest: string)
    ensures WordLen("Port " + rest) == 4
  {
    var t := "Port " + rest;
    assert t[1..][1..][1..][1..] == t[4..];
    assert IsSpace(t[4]);
  }

  lemma WordsAfterPort(rest: string)
    ensures Words("Port " + rest) == ["Port"] + Words(" " + rest)
  {
    var t := "Port " + rest;
    TrimStartUnchanged(t);
    WordLenOfPortLine(rest);
    WordsStep(t);
    assert t[4..] == " " + rest && t[..4] == "Port";
  }

  /** `Port ` followed by one word splits into `Port` and that word. */
  lemma WordsOfPortLine(port: string)
    requires port != [] && forall i :: 0 <= i < |port| ==> !IsSpace(port[i])
    ensures Words("Port " + port) == ["Port", port]
  {
    var spaced := " " + port;
    WordsAfterPort(port);
    WordsOfSpacedWord(port);
    assert Words("Port " + port) == ["Port"] + Words(spaced) == ["Port"] + [port];
  }

  /** `Port` followed by one word gives that word. */
  lemma PortTokenOfDirective(port: string)
    requires port != [] && forall i :: 0 <= i < |port| ==> !IsSpace(port[i])
    ensures IsPortLine("Port " + port) && PortToken("Port " + port) == port
  {
    var t := "Port " + port;
    assert t[0] == 'P' && t[|t| - 1] == port[|port| - 1];
    StripUnchanged(t);
    assert t[..5] == "Port ";
    WordsOfPortLine(port);
  }

  lemma {:induction false} WordLenAll(s: string)
    requires forall i :: 0 <= i < |s| ==> !IsSpace(s[i])
    ensures WordLen(s) == |s|
  {
    if s != [] {
      WordLenAll(s[1..]);
    }
  }

  /** The scan of `_detect_ssh_port` over the lines of sshd_config. */
  method FirstPort(lines: seq<string>) returns (port: string)
    ensures if exists i :: 0 <= i < |lines| && IsPortLine(lines[i]) then
        exists i :: 0 <= i < |lines| && IsPortLine(lines[i]) && port == PortToken(lines[i]) &&
          forall j :: 0 <= j < i ==> !IsPortLine(lines[j])
      else
        port == DefaultPort
  {
    var i := 0;
    while i < |lines|
      invariant 0 <= i <= |lines|
      invariant forall j :: 0 <= j < i ==> !IsPortLine(lines[j])
    {
      if IsPortLine(lines[i]) {
        PortLineHasToken(lines[i]);
        port := Words(Strip(lines[i]))[1];
        assert port == PortToken(lines[i]);
        return;
      }
      i := i + 1;
    }
    port := DefaultPort;
  }

  /**
   * `_detect_ssh_port`: the token of the first port line of sshd_config, or
   * `22` when the file is absent or has no port line.
   */
  method DetectSshPort(fs: FileSystem) returns (port: string)
    ensures SshdConfigPath !in fs ==> port == DefaultPort
    ensures SshdConfigPath in fs ==>
      var lines := Lines(fs[SshdConfigPath]);
      if exists i :: 0 <= i < |lines| && IsPortLine(lines[i]) then
        exists i :: 0 <= i < |lines| && IsPortLine(lines[i]) && port == PortToken(lines[i]) &&
          forall j :: 0 <= j < i ==> !IsPortLine(lines[j])
      else
        port == DefaultPort
  {
    if SshdConfigPath in fs {
      port := FirstPort(Lines(fs[SshdConfigPath]));
    } else {
      port := DefaultPort;
    }
  }
}
