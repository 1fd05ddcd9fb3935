/**
 * Recognising the distribution, `_detect_distro` (docesetup.py:54-78): the
 * `KEY=VALUE` lines of `/etc/os-release` first, then `lsb_release`, then
 * `/etc/debian_version`, then the platform name. The outputs of `lsb_release`
 * and of the `platform` module are parameters.
 */
module Distro {
  import opened Text
  import opened Wrappers
  import opened Files

  const OsReleasePath := "/etc/os-release"
  const DebianVersionPath := "/etc/debian_version"

  type Info = map<string, string>

  /** `s.split(c, 1)` on a text that holds `c`: the parts before and after its first occurrence. */
  function SplitOnce(s: string, c: char): (parts: (string, string))
    requires c in s
    ensures s == parts.0 + [c] + parts.1
    ensures c !in parts.0
  {
    var n := IndexOf(s, c);
    assert s == s[..n] + [c] + s[n + 1..];
    (s[..n], s[n + 1..])
  }

  /**
   * What one line of os-release adds to the table: for a line holding `=`, the
   * key before the first `=` of the stripped line and the value after it with
   * its double quotes stripped; nothing for any other line.
   */
  function ParseLine(line: string): (r: Option<(string, string)>)
    ensures r.Some? <==> '=' in line
    ensures r.Some? ==> '=' !in r.value.0
  {
    if '=' in line then
      StripKeeps(line, '=');
      var (key, value) := SplitOnce(Strip(line), '=');
      Some((key, StripQuotes(value)))
    else
      None
  }

  /** What each line sets, in order. */
  function Entries(lines: seq<string>): (es: seq<Option<(string, string)>>)
    ensures |es| == |lines|
    ensures forall i :: 0 <= i < |lines| ==> es[i] == ParseLine(lines[i])
  {
    seq(|lines|, i requires 0 <= i < |lines| => ParseLine(lines[i]))
  }

  /** The table built from the entries in order, a later key overwriting an earlier one. */
  function Tabulate(es: seq<Option<(string, string)>>): Info {
    if es == [] then map[]
    else
      var info := Tabulate(es[..|es| - 1]);
      var e := es[|es| - 1];
      if e.Some? then info[e.value.0 := e.value.1] else info
  }

  /** The table the loop builds from the lines of os-release. */
  function OsReleaseInfo(lines: seq<string>): Info {
    Tabulate(Entries(lines))
  }

  /** `info.get(key, '')`. */
  function Get(info: Info, key: string): string {
    if key in info then info[key] else ""
  }

  /** One more line read: the table is updated with what that line sets, if anything. */
  lemma InfoStep(lines: seq<string>, i: int)
    requires 0 <= i < |lines|
    ensures var parsed := ParseLine(lines[i]);
      OsReleaseInfo(lines[..i + 1]) ==
        if parsed.Some? then OsReleaseInfo(lines[..i])[parsed.value.0 := parsed.value.1]
        else OsReleaseInfo(lines[..i])
  {
    var es := Entries(lines[..i + 1]);
    assert es[..i] == Entries(lines[..i]);
  }

  /** The lines of `/etc/os-release` parsed into a table, one line at a time. */
  method ParseOsRelease(content: string) returns (info: Info)
    ensures info == OsReleaseInfo(Lines(content))
  {
    var lines := Lines(content);
    info := map[];
    var i := 0;
    while i < |lines|
      invariant 0 <= i <= |lines|
      invariant info == OsReleaseInfo(lines[..i])
    {
      var line := lines[i];
      InfoStep(lines, i);
      if '=' in line {
        StripKeeps(line, '=');
        var (key, value) := SplitOnce(Strip(line), '=');
        assert ParseLine(line) == Some((key, StripQuotes(value)));
        info := info[key := StripQuotes(value)];
      }
      i := i + 1;
    }
    assert lines[..|lines|] == lines;
  }

  /** The entry at `i` is the last one that sets `key`, to `value`. */
  predicate LastSets(es: seq<Option<(string, string)>>, i: int, key: string, value: string) {
    0 <= i < |es| && es[i] == Some((key, value)) &&
    forall j :: i < j < |es| ==> es[j].None? || es[j].value.0 != key
  }

  lemma {:induction false} TabulateLastWins(es: seq<Option<(string, string)>>, i: int, key: string, value: string)
    requires LastSets(es, i, key, value)
    ensures key in Tabulate(es) && Tabulate(es)[key] == value
  {
    var n := |es| - 1;
    if i < n {
      assert LastSets(es[..n], i, key, value) by {
        assert forall j :: i < j < n ==> es[..n][j] == es[j];
      }
      TabulateLastWins(es[..n], i, key, value);
    }
  }

  lemma {:induction false} TabulateMissing(es: seq<Option<(string, string)>>, key: string)
    requires forall j :: 0 <= j < |es| ==> es[j].None? || es[j].value.0 != key
    ensures key !in Tabulate(es)
  {
    if es != [] {
      var n := |es| - 1;
      assert forall j :: 0 <= j < n ==> es[..n][j] == es[j];
      TabulateMissing(es[..n], key);
    }
  }

  /** The line sets `key`. */
  predicate Defines(line: string, key: string) {
    ParseLine(line).Some? && ParseLine(line).value.0 == key
  }

  /** The value a key ends with is the one on the last line that sets it. */
  lemma InfoLastWins(lines: seq<string>, i: int, key: string)
    requires 0 <= i < |lines| && Defines(lines[i], key)
    requires forall j :: i < j < |lines| ==> !Defines(lines[j], key)
    ensures key in OsReleaseInfo(lines)
    ensures OsReleaseInfo(lines)[key] == ParseLine(lines[i]).value.1
  {
    TabulateLastWins(Entries(lines), i, key, ParseLine(lines[i]).value.1);
  }

  /** A key no line sets is missing, whatever other lines say. */
  lemma InfoMissing(lines: seq<string>, key: string)
    requires forall j :: 0 <= j < |lines| ==> !Defines(lines[j], key)
    ensures key !in OsReleaseInfo(lines)
  {
    TabulateMissing(Entries(lines), key);
  }

  /** A plain `KEY=VALUE` line sets `KEY` to `VALUE` without its double quotes. */
  lemma ParseKeyValue(key: string, value: string)
    requires key != [] && !IsSpace(key[0]) && '=' !in key
    requires value == [] || !IsSpace(value[|value| - 1])
    ensures ParseLine(key + "=" + value) == Some((key, StripQuotes(value)))
  {
    var line := key + "=" + value;
    assert line[0] == key[0];
    assert line[|line| - 1] == if value == [] then '=' else value[|value| - 1];
    StripUnchanged(line);
    assert line[|key|] == '=';
    var (k, v) := SplitOnce(line, '=');
    IndexOfAfter(key, '=', value);
    assert |k| == |key| by {
      assert k == line[..IndexOf(line, '=')];
    }
    assert k == line[..|key|] == key;
    assert v == line[|key| + 1..] == value;
  }

  /**
   * `_detect_distro`: from `/etc/os-release` when it exists, the lower-cased
   * `ID` and the `VERSION_ID`, each `""` when missing; else `lsb_release`'s
   * answers, stripped, the id lower-cased; else `debian` and the stripped text
   * of `/etc/debian_version`; else the platform's system name, lower-cased, and
   * release.
   */
  method DetectDistro(fs: FileSystem, onPath: set<string>, lsbId: string, lsbRelease: string,
                      system: string, release: string)
    returns (distro: string, version: string)
    ensures OsReleasePath in fs ==>
      var info := OsReleaseInfo(Lines(fs[OsReleasePath]));
      distro == Lower(Get(info, "ID")) && version == StripQuotes(Get(info, "VERSION_ID"))
    ensures OsReleasePath !in fs && "lsb_release" in onPath ==>
      distro == Lower(Strip(lsbId)) && version == Strip(lsbRelease)
    ensures OsReleasePath !in fs && "lsb_release" !in onPath && DebianVersionPath in fs ==>
      distro == "debian" && version == Strip(fs[DebianVersionPath])
    ensures OsReleasePath !in fs && "lsb_release" !in onPath && DebianVersionPath !in fs ==>
      distro == Lower(system) && version == release
  {
    if OsReleasePath in fs {
      var info := ParseOsRelease(fs[OsReleasePath]);
      distro := Lower(Get(info, "ID"));
      version := StripQuotes(Get(info, "VERSION_ID"));
      return;
    }
    if "lsb_release" in onPath {
      distro := Lower(Strip(lsbId));
      version := Strip(lsbRelease);
      return;
    }
    if DebianVersionPath in fs {
      distro, version := "debian", Strip(fs[DebianVersionPath]);
      return;
    }
    distro, version := Lower(system), release;
  }
}
