/**
 * The configuration-line upsert `_update_config` (docesetup.py:144-158), the
 * primitive behind every SSH setting the script changes.
 *
 * A file system is a map from path to the text Python reads from the file. The
 * two regular expressions are modelled as the left-to-right scans that
 * `re.search` and `re.sub` perform under `re.MULTILINE`: `^` holds at the start
 * of the text and after every newline, `[#\s]*` may run across newlines, and
 * `.*` stops at the end of the line.
 */
module ConfigEditor {
  import opened Text
  import opened Files

  /** What `_update_config` returns, with the file system after the call. */
  datatype ConfigUpdate = ConfigUpdate(written: bool, files: FileSystem)

  predicate IsIdentifierChar(c: char) {
    ('a' <= c <= 'z') || ('A' <= c <= 'Z') || ('0' <= c <= '9') || c == '_'
  }

  /** The parameter names the script passes: non-empty identifiers, literal inside a pattern. */
  predicate IsIdentifier(p: string) {
    |p| > 0 && forall i :: 0 <= i < |p| ==> IsIdentifierChar(p[i])
  }

  /** Values without newline or backslash, so the replacement template is literal text. */
  predicate IsPlainValue(v: string) {
    forall i :: 0 <= i < |v| ==> v[i] != '\n' && v[i] != '\\'
  }

  predicate IsHashOrSpace(c: char) {
    c == '#' || IsSpace(c)
  }

  /** The length of the run `[#\s]*` takes at the start of `s`; it may cross line ends. */
  function LeadLen(s: string): (n: nat)
    ensures n <= |s|
    ensures forall i :: 0 <= i < n ==> IsHashOrSpace(s[i])
    ensures n < |s| ==> !IsHashOrSpace(s[n])
  {
    if s != [] && IsHashOrSpace(s[0]) then 1 + LeadLen(s[1..]) else 0
  }

  /**
   * `[#\s]*param` matches at the start of `s`. A parameter begins with an
   * identifier character, so backtracking cannot help: the run must be maximal.
   */
  predicate DirectiveAt(s: string, param: string) {
    StartsWith(s[LeadLen(s)..], param)
  }

  /** `[#\s]*param\s` matches at the start of `s`. */
  predicate ActiveAt(s: string, param: string) {
    DirectiveAt(s, param) && LeadLen(s) + |param| < |s| && IsSpace(s[LeadLen(s) + |param|])
  }

  /**
   * `re.search(r'^[#\s]*param\s', s, re.MULTILINE)` succeeds; `atLineStart`
   * says whether `^` holds at the first position of `s`.
   */
  predicate Found(s: string, atLineStart: bool, param: string)
    decreases |s|
  {
    s != [] && ((atLineStart && ActiveAt(s, param)) || Found(s[1..], s[0] == '\n', param))
  }

  /** Where the match of `[#\s]*param.*` at the start of `s` ends: `.*` stops at the line end. */
  function MatchEnd(s: string, param: string): (e: nat)
    requires DirectiveAt(s, param)
    ensures LeadLen(s) + |param| <= e <= |s|
    ensures e < |s| ==> s[e] == '\n'
  {
    var k := LeadLen(s) + |param|;
    k + IndexOf(s[k..], '\n')
  }

  /** The line `_update_config` writes: `f'{param} {value}'`. */
  function Directive(param: string, value: string): string {
    param + " " + value
  }

  /**
   * `re.sub(r'^[#\s]*param.*', param + ' ' + value, s, flags=re.MULTILINE)`,
   * applied to the part of a text that starts at a position where `^` holds
   * exactly when `atLineStart` does.
   */
  function Rewrite(s: string, atLineStart: bool, param: string, value: string): string
    requires IsIdentifier(param)
    decreases |s|
  {
    if s == [] then []
    else if atLineStart && DirectiveAt(s, param) then
      Directive(param, value) + Rewrite(s[MatchEnd(s, param)..], false, param, value)
    else
      [s[0]] + Rewrite(s[1..], s[0] == '\n', param, value)
  }

  /** The line of `u` that starts at `i` is exactly `d`. */
  predicate WholeLineAt(u: string, i: int, d: string)
    requires 0 <= i <= |u|
  {
    StartsWith(u[i..], d) && (i + |d| == |u| || u[i + |d|] == '\n')
  }

  /** `^` holds at position `i` of `u`; `atLineStart` says whether it holds at 0. */
  predicate IsLineStart(u: string, i: int, atLineStart: bool)
    requires 0 <= i <= |u|
  {
    if i == 0 then atLineStart else u[i - 1] == '\n'
  }

  /** Every line of `u` at which `[#\s]*param` matches is exactly `param value`. */
  predicate CanonicalFrom(u: string, atLineStart: bool, param: string, value: string) {
    forall i :: 0 <= i < |u| && IsLineStart(u, i, atLineStart) && DirectiveAt(u[i..], param) ==>
      WholeLineAt(u, i, Directive(param, value))
  }

  predicate Canonical(u: string, param: string, value: string) {
    CanonicalFrom(u, true, param, value)
  }

  /**
   * `_update_config(filename, param, value)`: false and nothing written when the
   * file is absent; otherwise every directive line is rewritten when an active
   * one exists, else the directive is appended after a newline.
   */
  function UpdateConfig(fs: FileSystem, path: string, param: string, value: string): (r: ConfigUpdate)
    requires IsIdentifier(param) && IsPlainValue(value)
    ensures r.written <==> path in fs
    ensures !r.written ==> r.files == fs
    ensures r.written ==> r.files.Keys == fs.Keys
    ensures forall q :: q in fs && q != path ==> q in r.files && r.files[q] == fs[q]
    ensures r.written && !Found(fs[path], true, param) ==>
      r.files[path] == fs[path] + "\n" + Directive(param, value)
    ensures r.written ==> Found(r.files[path], true, param)
    ensures r.written && Found(fs[path], true, param) ==> Canonical(r.files[path], param, value)
  {
    if path !in fs then ConfigUpdate(false, fs)
    else
      var content := fs[path];
      if Found(content, true, param) then
        RewriteKeepsFound(content, true, param, value);
        RewriteCanonical(content, true, param, value);
        ConfigUpdate(true, fs[path := Rewrite(content, true, param, value)])
      else
        FoundAppended(content, true, param, value);
        ConfigUpdate(true, fs[path := content + "\n" + Directive(param, value)])
  }

  lemma LeadLenCons(c: char, s: string)
    requires IsHashOrSpace(c)
    ensures LeadLen([c] + s) == 1 + LeadLen(s)
    ensures ([c] + s)[LeadLen([c] + s)..] == s[LeadLen(s)..]
  {
    assert ([c] + s)[1..] == s;
  }

  /** The directive line itself matches, with a space after the name. */
  lemma DirectiveLineActive(param: string, value: string, tail: string)
    requires IsIdentifier(param)
    ensures LeadLen(Directive(param, value) + tail) == 0
    ensures ActiveAt(Directive(param, value) + tail, param)
  {
    var u := Directive(param, value) + tail;
    assert u[0] == param[0] && IsIdentifierChar(param[0]);
    assert u[..|param|] == param;
    assert u[|param|] == ' ';
  }

  /** Where no directive starts, the first character is copied. */
  lemma RewriteCopyStep(u: string, atLineStart: bool, param: string, value: string)
    requires IsIdentifier(param)
    requires u != [] && !(atLineStart && DirectiveAt(u, param))
    ensures Rewrite(u, atLineStart, param, value) == [u[0]] + Rewrite(u[1..], u[0] == '\n', param, value)
  {
  }

  /** After a position where `^` does not hold, a text without line end is copied. */
  lemma {:induction false} RewriteCopiesNoNewline(a: string, param: string, value: string)
    requires IsIdentifier(param)
    requires '\n' !in a
    ensures Rewrite(a, false, param, value) == a
    decreases |a|
  {
    if a != [] {
      RewriteCopiesNoNewline(a[1..], param, value);
      assert a == [a[0]] + a[1..];
    }
  }

  /** After a position where `^` does not hold, the rest of the line and its line end are copied. */
  lemma {:induction false} RewriteCopiesRestOfLine(a: string, j: string, param: string, value: string)
    requires IsIdentifier(param)
    requires '\n' !in a
    ensures Rewrite(a + "\n" + j, false, param, value) == a + "\n" + Rewrite(j, true, param, value)
    decreases |a|
  {
    if a == [] {
      assert a + "\n" + j == "\n" + j;
      RewriteAfterNewline(j, param, value);
    } else {
      var u := a + "\n" + j;
      assert u[0] == a[0] && u[1..] == a[1..] + "\n" + j;
      RewriteCopyStep(u, false, param, value);
      RewriteCopiesRestOfLine(a[1..], j, param, value);
      assert a + "\n" + Rewrite(j, true, param, value) == [a[0]] + (a[1..] + "\n" + Rewrite(j, true, param, value));
    }
  }

  /** A line that does not open with the name keeps not opening with it once the rest of it is copied. */
  lemma CopiedLineNoDirective(t: string, param: string, value: string)
    requires IsIdentifier(param)
    requires t != [] && !IsHashOrSpace(t[0]) && !StartsWith(t, param)
    ensures !StartsWith([t[0]] + Rewrite(t[1..], false, param, value), param)
  {
    var u := t[1..];
    var n := IndexOf(u, '\n');
    ConsSplit(t);
    if n == |u| {
      RewriteCopiesNoNewline(u, param, value);
    } else {
      var a := u[..n];
      var j := u[n + 1..];
      var r := Rewrite(j, true, param, value);
      SplitLine(u, n);
      RewriteCopiesRestOfLine(a, j, param, value);
      ConsLine(t[0], a, j);
      ConsLine(t[0], a, r);
      StartsWithBeforeNewline([t[0]] + a, j, param);
      StartsWithBeforeNewline([t[0]] + a, r, param);
    }
  }

  /** A position where `[#\s]*param` does not match stays so after the rewrite. */
  lemma {:induction false} RewriteKeepsNoDirective(t: string, atLineStart: bool, param: string, value: string)
    requires IsIdentifier(param)
    requires !DirectiveAt(t, param)
    ensures !DirectiveAt(Rewrite(t, atLineStart, param, value), param)
    decreases |t|
  {
    if t != [] {
      var y := Rewrite(t[1..], t[0] == '\n', param, value);
      assert Rewrite(t, atLineStart, param, value) == [t[0]] + y;
      if IsHashOrSpace(t[0]) {
        LeadLenCons(t[0], t[1..]);
        assert t == [t[0]] + t[1..];
        RewriteKeepsNoDirective(t[1..], t[0] == '\n', param, value);
        LeadLenCons(t[0], y);
      } else {
        CopiedLineNoDirective(t, param, value);
        assert LeadLen([t[0]] + y) == 0;
      }
    }
  }

  lemma DirectiveHasNoNewline(param: string, value: string)
    requires IsIdentifier(param) && IsPlainValue(value)
    ensures forall j :: 0 <= j < |Directive(param, value)| ==> Directive(param, value)[j] != '\n'
  {
    var d := Directive(param, value);
    forall j | 0 <= j < |d| ensures d[j] != '\n' {
      if j >= |param| + 1 {
        assert d[j] == value[j - |param| - 1];
      } else if j < |param| {
        assert d[j] == param[j] && IsIdentifierChar(param[j]);
      }
    }
  }

  /** A text that starts at a line end still does after the rewrite. */
  lemma RewriteKeepsLineEnd(rest: string, param: string, value: string)
    requires IsIdentifier(param)
    requires rest == [] || rest[0] == '\n'
    ensures var tail := Rewrite(rest, false, param, value);
      tail == [] || tail[0] == '\n'
  {
    if rest != [] {
      assert Rewrite(rest, false, param, value) == [rest[0]] + Rewrite(rest[1..], true, param, value);
    }
  }

  /** The scan reads a directive line that ends where the line ends as one match of itself. */
  lemma RewriteDirectiveLine(param: string, value: string, tail: string)
    requires IsIdentifier(param) && IsPlainValue(value)
    requires tail == [] || tail[0] == '\n'
    ensures Rewrite(Directive(param, value) + tail, true, param, value) ==
      Directive(param, value) + Rewrite(tail, false, param, value)
  {
    var d := Directive(param, value);
    var out := d + tail;
    DirectiveLineActive(param, value, tail);
    DirectiveHasNoNewline(param, value);
    var sv := " " + value;
    assert d == param + sv;
    assert '\n' !in sv by {
      forall i | 0 <= i < |sv| ensures sv[i] != '\n' {
        assert sv[i] == d[|param| + i];
      }
    }
    if tail == [] {
      IndexOfAbsent(sv, '\n');
      assert out[|param|..] == sv;
    } else {
      assert tail == "\n" + tail[1..];
      assert out[|param|..] == sv + "\n" + tail[1..];
      IndexOfAfter(sv, '\n', tail[1..]);
    }
    assert MatchEnd(out, param) == |d|;
    assert out[|d|..] == tail;
  }

  /** What the first rewrite left is left alone by a second one. */
  lemma {:induction false} RewriteIdempotent(t: string, atLineStart: bool, param: string, value: string)
    requires IsIdentifier(param) && IsPlainValue(value)
    ensures var out := Rewrite(t, atLineStart, param, value);
      Rewrite(out, atLineStart, param, value) == out
    decreases |t|
  {
    if t == [] {
    } else if atLineStart && DirectiveAt(t, param) {
      var rest := t[MatchEnd(t, param)..];
      var tail := Rewrite(rest, false, param, value);
      RewriteIdempotent(rest, false, param, value);
      RewriteKeepsLineEnd(rest, param, value);
      RewriteDirectiveLine(param, value, tail);
    } else {
      var y := Rewrite(t[1..], t[0] == '\n', param, value);
      RewriteIdempotent(t[1..], t[0] == '\n', param, value);
      var out := [t[0]] + y;
      if atLineStart {
        RewriteKeepsNoDirective(t, atLineStart, param, value);
      }
      assert out[1..] == y;
    }
  }

  /** An active directive survives the rewrite. */
  lemma {:induction false} RewriteKeepsFound(t: string, atLineStart: bool, param: string, value: string)
    requires IsIdentifier(param)
    requires Found(t, atLineStart, param)
    ensures Found(Rewrite(t, atLineStart, param, value), atLineStart, param)
    decreases |t|
  {
    if atLineStart && DirectiveAt(t, param) {
      var tail := Rewrite(t[MatchEnd(t, param)..], false, param, value);
      DirectiveLineActive(param, value, tail);
    } else {
      var y := Rewrite(t[1..], t[0] == '\n', param, value);
      RewriteKeepsFound(t[1..], t[0] == '\n', param, value);
      assert ([t[0]] + y)[1..] == y;
    }
  }

  /** The appended directive is active. */
  lemma {:induction false} FoundAppended(s: string, atLineStart: bool, param: string, value: string)
    requires IsIdentifier(param)
    ensures Found(s + "\n" + Directive(param, value), atLineStart, param)
    decreases |s|
  {
    var d := Directive(param, value);
    var u := s + "\n" + d;
    if s == [] {
      DirectiveLineActive(param, value, []);
      assert d + [] == d;
      assert u[1..] == d;
    } else {
      FoundAppended(s[1..], s[0] == '\n', param, value);
      assert u[1..] == s[1..] + "\n" + d;
    }
  }

  /**
   * Canonical lines of `tail` stay canonical behind a piece `p` that holds no
   * line end before its last character, once its own first line is canonical.
   */
  lemma CanonicalAfterPiece(p: string, tail: string, atLineStart: bool, param: string, value: string)
    requires p != [] && forall i :: 0 <= i < |p| - 1 ==> p[i] != '\n'
    requires CanonicalFrom(tail, p[|p| - 1] == '\n', param, value)
    requires atLineStart && DirectiveAt(p + tail, param) ==> WholeLineAt(p + tail, 0, Directive(param, value))
    ensures CanonicalFrom(p + tail, atLineStart, param, value)
  {
    var out := p + tail;
    var d := Directive(param, value);
    assert out[0..] == out;
    forall i | 0 < i < |p| && i < |out|
      ensures !IsLineStart(out, i, atLineStart)
    {
      assert out[i - 1] == p[i - 1];
    }
    forall i | |p| <= i < |out|
      ensures out[i..] == tail[i - |p|..]
      ensures IsLineStart(out, i, atLineStart) == IsLineStart(tail, i - |p|, p[|p| - 1] == '\n')
      ensures WholeLineAt(out, i, d) == WholeLineAt(tail, i - |p|, d)
    {
    }
  }

  /** The directive the rewrite writes is a whole line of its output. */
  lemma RewriteCanonicalAtDirective(t: string, param: string, value: string)
    requires IsIdentifier(param) && IsPlainValue(value)
    requires t != [] && DirectiveAt(t, param)
    requires CanonicalFrom(Rewrite(t[MatchEnd(t, param)..], false, param, value), false, param, value)
    ensures CanonicalFrom(Rewrite(t, true, param, value), true, param, value)
  {
    var d := Directive(param, value);
    var tail := Rewrite(t[MatchEnd(t, param)..], false, param, value);
    var out := d + tail;
    RewriteKeepsLineEnd(t[MatchEnd(t, param)..], param, value);
    DirectiveHasNoNewline(param, value);
    DirectiveLineActive(param, value, tail);
    assert WholeLineAt(out, 0, d) by {
      assert out[0..] == out;
      assert out[..|d|] == d;
    }
    CanonicalAfterPiece(d, tail, true, param, value);
  }

  /** Every line at which the rewrite pattern matches afterwards is exactly `param value`. */
  lemma {:induction false} RewriteCanonical(t: string, atLineStart: bool, param: string, value: string)
    requires IsIdentifier(param) && IsPlainValue(value)
    ensures CanonicalFrom(Rewrite(t, atLineStart, param, value), atLineStart, param, value)
    decreases |t|
  {
    if t == [] {
    } else if atLineStart && DirectiveAt(t, param) {
      RewriteCanonical(t[MatchEnd(t, param)..], false, param, value);
      RewriteCanonicalAtDirective(t, param, value);
    } else {
      var y := Rewrite(t[1..], t[0] == '\n', param, value);
      RewriteCanonical(t[1..], t[0] == '\n', param, value);
      if atLineStart {
        RewriteKeepsNoDirective(t, atLineStart, param, value);
      }
      CanonicalAfterPiece([t[0]], y, atLineStart, param, value);
    }
  }

  /** The idempotence that holds: once the directive is present, a second call changes nothing. */
  lemma UpdateConfigIdempotentWhenPresent(fs: FileSystem, path: string, param: string, value: string)
    requires IsIdentifier(param) && IsPlainValue(value)
    requires path in fs && Found(fs[path], true, param)
    ensures var once := UpdateConfig(fs, path, param, value).files;
      UpdateConfig(once, path, param, value).files == once
  {
    var content := fs[path];
    var out := Rewrite(content, true, param, value);
    RewriteKeepsFound(content, true, param, value);
    RewriteIdempotent(content, true, param, value);
    assert UpdateConfig(fs, path, param, value).files == fs[path := out];
    assert fs[path := out][path := out] == fs[path := out];
  }

  // ---------------------------------------------------------------------------
  // Line by line. When no blank or `#`-only line stands right above a directive
  // line, `[#\s]*` never runs past the end of the line it starts on and the
  // rewrite acts on each line separately.

  /** A line made only of `#` and whitespace, which `[#\s]*` runs straight across. */
  predicate IsBlankOrHashes(line: string) {
    LeadLen(line) == |line|
  }

  /** No blank or `#`-only line stands directly above a line where `[#\s]*param` matches. */
  predicate NoSwallow(ls: seq<string>, param: string) {
    forall i :: 0 <= i < |ls| - 1 && IsBlankOrHashes(ls[i]) ==> !DirectiveAt(ls[i + 1], param)
  }

  /** The rewrite of one line on its own. */
  function RewriteLine(line: string, param: string, value: string): string {
    if DirectiveAt(line, param) then Directive(param, value) else line
  }

  function RewriteLines(ls: seq<string>, param: string, value: string): (r: seq<string>)
    ensures |r| == |ls|
    ensures forall i :: 0 <= i < |ls| ==> r[i] == RewriteLine(ls[i], param, value)
  {
    seq(|ls|, i requires 0 <= i < |ls| => RewriteLine(ls[i], param, value))
  }

  lemma {:induction false} LeadLenAppend(a: string, b: string)
    ensures LeadLen(a + b) == if LeadLen(a) == |a| then |a| + LeadLen(b) else LeadLen(a)
  {
    if a == [] {
      assert a + b == b;
    } else {
      assert (a + b)[0] == a[0];
      assert (a + b)[1..] == a[1..] + b;
      if IsHashOrSpace(a[0]) {
        LeadLenAppend(a[1..], b);
      }
    }
  }

  lemma StartsWithBeforeNewline(a: string, x: string, param: string)
    requires IsIdentifier(param)
    ensures StartsWith(a + "\n" + x, param) == StartsWith(a, param)
  {
    var u := a + "\n" + x;
    if |param| <= |a| {
      assert u[..|param|] == a[..|param|];
    } else {
      assert u[|a|] == '\n';
      assert IsIdentifierChar(param[|a|]);
    }
  }

  /** When the first line is not blank, the run of `[#\s]*` stops inside it. */
  lemma LeadStopsInLine(l: string, j: string, param: string)
    requires IsIdentifier(param)
    requires LeadLen(l) < |l|
    ensures LeadLen(l + "\n" + j) == LeadLen(l)
    ensures DirectiveAt(l + "\n" + j, param) == DirectiveAt(l, param)
  {
    var k := LeadLen(l);
    LeadLenAppend(l, "\n" + j);
    assert l + "\n" + j == l + ("\n" + j);
    assert (l + "\n" + j)[k..] == l[k..] + "\n" + j;
    StartsWithBeforeNewline(l[k..], j, param);
  }

  /** The run of `[#\s]*` crosses a piece made only of `#` and whitespace. */
  lemma {:induction false} LeadSkipsBlank(l: string, u: string, param: string)
    requires LeadLen(l) == |l|
    ensures DirectiveAt(l + u, param) == DirectiveAt(u, param)
    decreases |l|
  {
    if l == [] {
      assert l + u == u;
    } else {
      ConsAppend(l, u);
      LeadLenCons(l[0], l[1..] + u);
      LeadSkipsBlank(l[1..], u, param);
    }
  }

  /** When the first line is blank or `#` only, the run of `[#\s]*` crosses into the next one. */
  lemma LeadCrossesLine(l: string, j: string, param: string)
    requires LeadLen(l) == |l|
    ensures DirectiveAt(l + "\n" + j, param) == DirectiveAt(j, param)
  {
    AppendAssoc(l, "\n", j);
    LeadSkipsBlank(l, "\n" + j, param);
    LeadLenCons('\n', j);
  }

  lemma NoSwallowTail(ls: seq<string>, param: string)
    requires |ls| >= 1 && NoSwallow(ls, param)
    ensures NoSwallow(ls[1..], param)
  {
    forall i | 0 <= i < |ls[1..]| - 1 && IsBlankOrHashes(ls[1..][i])
      ensures !DirectiveAt(ls[1..][i + 1], param)
    {
      assert ls[1..][i] == ls[i + 1] && ls[1..][i + 1] == ls[i + 2];
    }
  }

  /** Where the run of the first line stops decides whether the joined text opens with a directive. */
  lemma {:induction false} DirectiveAtJoin(ls: seq<string>, param: string)
    requires IsIdentifier(param)
    requires |ls| >= 1 && NoSwallow(ls, param)
    ensures DirectiveAt(Join(ls), param) == DirectiveAt(ls[0], param)
  {
    if |ls| > 1 {
      var l := ls[0];
      var j := Join(ls[1..]);
      assert Join(ls) == l + "\n" + j;
      if LeadLen(l) < |l| {
        LeadStopsInLine(l, j, param);
      } else {
        LeadCrossesLine(l, j, param);
        NoSwallowTail(ls, param);
        DirectiveAtJoin(ls[1..], param);
        assert ls[1..][0] == ls[1];
      }
    }
  }

  /** The single-line case: a line without newline is rewritten as a whole or copied. */
  lemma RewriteOneLine(l: string, param: string, value: string)
    requires IsIdentifier(param)
    requires '\n' !in l
    ensures Rewrite(l, true, param, value) == RewriteLine(l, param, value)
  {
    if DirectiveAt(l, param) {
      var k := LeadLen(l) + |param|;
      IndexOfAbsent(l[k..], '\n');
      assert MatchEnd(l, param) == |l|;
    } else if l != [] {
      RewriteCopiesNoNewline(l[1..], param, value);
      assert l == [l[0]] + l[1..];
    }
  }

  lemma RewriteAfterNewline(j: string, param: string, value: string)
    requires IsIdentifier(param)
    ensures Rewrite("\n" + j, false, param, value) == "\n" + Rewrite(j, true, param, value)
  {
    assert ("\n" + j)[1..] == j;
  }

  /** The match of a directive on the first line ends where that line does. */
  lemma MatchEndsWithLine(l: string, j: string, param: string)
    requires IsIdentifier(param)
    requires '\n' !in l && DirectiveAt(l, param)
    ensures DirectiveAt(l + "\n" + j, param)
    ensures MatchEnd(l + "\n" + j, param) == |l|
  {
    var t := l + "\n" + j;
    var k := LeadLen(l) + |param|;
    LeadStopsInLine(l, j, param);
    assert t[k..] == l[k..] + "\n" + j;
    IndexOfAfter(l[k..], '\n', j);
  }

  /** A first line that opens with a directive is replaced as a whole. */
  lemma RewriteHeadDirective(l: string, j: string, param: string, value: string)
    requires IsIdentifier(param)
    requires '\n' !in l && DirectiveAt(l, param)
    ensures Rewrite(l + "\n" + j, true, param, value) ==
      Directive(param, value) + "\n" + Rewrite(j, true, param, value)
  {
    var t := l + "\n" + j;
    MatchEndsWithLine(l, j, param);
    assert t[|l|..] == "\n" + j;
    assert Rewrite(t, true, param, value) == Directive(param, value) + Rewrite("\n" + j, false, param, value);
    RewriteAfterNewline(j, param, value);
  }

  /** A first line that does not open with a directive is copied. */
  lemma RewriteHeadCopied(l: string, j: string, param: string, value: string)
    requires IsIdentifier(param)
    requires '\n' !in l && !DirectiveAt(l + "\n" + j, param)
    ensures Rewrite(l + "\n" + j, true, param, value) == l + "\n" + Rewrite(j, true, param, value)
  {
    if l == [] {
      var t := l + "\n" + j;
      assert t == "\n" + j;
      assert t[1..] == j;
    } else {
      RewriteNonEmptyHeadCopied(l, j, param, value);
    }
  }

  lemma RewriteNonEmptyHeadCopied(l: string, j: string, param: string, value: string)
    requires IsIdentifier(param)
    requires l != [] && '\n' !in l && !DirectiveAt(l + "\n" + j, param)
    ensures Rewrite(l + "\n" + j, true, param, value) == l + "\n" + Rewrite(j, true, param, value)
  {
    var t := l + "\n" + j;
    assert t[0] == l[0] && t[1..] == l[1..] + "\n" + j;
    RewriteCopyStep(t, true, param, value);
    RewriteCopiesRestOfLine(l[1..], j, param, value);
    assert l == [l[0]] + l[1..];
  }

  /** Under `NoSwallow`, rewriting the joined lines is joining the rewritten lines. */
  lemma {:induction false} RewriteJoin(ls: seq<string>, param: string, value: string)
    requires IsIdentifier(param)
    requires |ls| >= 1 && NoSwallow(ls, param)
    requires forall i :: 0 <= i < |ls| ==> '\n' !in ls[i]
    ensures Rewrite(Join(ls), true, param, value) == Join(RewriteLines(ls, param, value))
  {
    var l := ls[0];
    if |ls| == 1 {
      RewriteOneLine(l, param, value);
    } else {
      var j := Join(ls[1..]);
      assert Join(ls) == l + "\n" + j;
      NoSwallowTail(ls, param);
      RewriteJoin(ls[1..], param, value);
      DirectiveAtJoin(ls, param);
      var r := RewriteLines(ls, param, value);
      assert r[1..] == RewriteLines(ls[1..], param, value);
      assert Join(r) == r[0] + "\n" + Join(r[1..]);
      if DirectiveAt(l, param) {
        RewriteHeadDirective(l, j, param, value);
      } else {
        RewriteHeadCopied(l, j, param, value);
      }
    }
  }

  lemma RewriteLinesNoNewline(ls: seq<string>, param: string, value: string)
    requires IsIdentifier(param) && IsPlainValue(value)
    requires forall i :: 0 <= i < |ls| ==> '\n' !in ls[i]
    ensures forall i :: 0 <= i < |ls| ==> '\n' !in RewriteLines(ls, param, value)[i]
  {
    DirectiveHasNoNewline(param, value);
  }

  /**
   * When no blank or `#`-only line stands right above a directive line, every
   * line that opens with `[#\s]*param` becomes exactly `param value` and every
   * other line is kept.
   */
  lemma UpdateConfigLinewise(fs: FileSystem, path: string, param: string, value: string)
    requires IsIdentifier(param) && IsPlainValue(value)
    requires path in fs && Found(fs[path], true, param)
    requires NoSwallow(Lines(fs[path]), param)
    ensures var before := Lines(fs[path]);
      var after := Lines(UpdateConfig(fs, path, param, value).files[path]);
      |after| == |before| &&
      forall i :: 0 <= i < |before| ==>
        after[i] == if DirectiveAt(before[i], param) then Directive(param, value) else before[i]
  {
    var s := fs[path];
    var ls := Lines(s);
    JoinLines(s);
    RewriteJoin(ls, param, value);
    RewriteLinesNoNewline(ls, param, value);
    LinesJoin(RewriteLines(ls, param, value));
  }

  /** A commented-out directive line `#param previous` is active, and the rewrite uncomments it with the new value. */
  lemma RewriteCommentedLine(param: string, previous: string, value: string)
    requires IsIdentifier(param) && IsPlainValue(previous)
    ensures Found("#" + Directive(param, previous), true, param)
    ensures Rewrite("#" + Directive(param, previous), true, param, value) == Directive(param, value)
  {
    var d := Directive(param, previous);
    var l := "#" + d;
    DirectiveLineActive(param, previous, []);
    assert d + [] == d;
    LeadLenCons('#', d);
    assert l[1..] == d;
    assert l[1 + |param|] == d[|param|];
    assert ActiveAt(l, param);
    DirectiveHasNoNewline(param, previous);
    assert '\n' !in l by {
      forall i | 0 <= i < |l| ensures l[i] != '\n' {
        if i > 0 {
          assert l[i] == d[i - 1];
        }
      }
    }
    RewriteOneLine(l, param, value);
  }

  /** `#Port 22` with (`Port`, `2222`) becomes `Port 2222`. */
  lemma UncommentsPort(fs: FileSystem, path: string)
    requires path in fs && fs[path] == "#Port 22"
    ensures UpdateConfig(fs, path, "Port", "2222").files[path] == "Port 2222"
  {
    assert IsIdentifier("Port");
    assert fs[path] == "#" + Directive("Port", "22");
    RewriteCommentedLine("Port", "22", "2222");
    assert Directive("Port", "2222") == "Port 2222";
  }

  // ---------------------------------------------------------------------------
  // Two departures of the code from a line-by-line upsert, and the intended
  // upsert: every line carrying the directive becomes `param value`; otherwise
  // the directive is appended.

  /** After an empty line, the run of `[#\s]*` reaches the directive and the whole rest is one match. */
  lemma RewriteAcrossEmptyLine(param: string, value: string)
    requires IsIdentifier(param) && IsPlainValue(value)
    ensures Rewrite("\n" + Directive(param, value), true, param, value) == Directive(param, value)
  {
    var d := Directive(param, value);
    var u := "\n" + d;
    DirectiveLineActive(param, value, []);
    assert d + [] == d;
    LeadLenCons('\n', d);
    assert LeadLen(u) == 1 && u[1..] == d;
    DirectiveHasNoNewline(param, value);
    var rest := u[1 + |param|..];
    assert '\n' !in rest by {
      forall i | 0 <= i < |rest| ensures rest[i] != '\n' {
        assert rest[i] == d[|param| + i];
      }
    }
    IndexOfAbsent(rest, '\n');
    assert MatchEnd(u, param) == |u|;
  }

  /** Past the start of a line, the search finds nothing before the next line end. */
  lemma {:induction false} NotFoundWithinLine(u: string, param: string)
    requires '\n' !in u
    ensures !Found(u + "\n", false, param)
  {
    var t := u + "\n";
    if u == [] {
      assert t[1..] == [];
    } else {
      assert t[1..] == u[1..] + "\n";
      NotFoundWithinLine(u[1..], param);
    }
  }

  /** A one-line file that ends with a newline and whose line holds no directive has no active one. */
  lemma NotFoundInLine(line: string, param: string)
    requires IsIdentifier(param)
    requires '\n' !in line && LeadLen(line) < |line| && !DirectiveAt(line, param)
    ensures !Found(line + "\n", true, param)
  {
    var s := line + "\n";
    LeadStopsInLine(line, [], param);
    assert line + "\n" + [] == s;
    assert s[1..] == line[1..] + "\n";
    NotFoundWithinLine(line[1..], param);
  }

  /** The second call's rewrite, on the text the first call appended to. */
  lemma RewriteAfterAppend(line: string, param: string, value: string)
    requires IsIdentifier(param) && IsPlainValue(value)
    requires '\n' !in line && LeadLen(line) < |line| && !DirectiveAt(line, param)
    ensures Rewrite(line + "\n" + ("\n" + Directive(param, value)), true, param, value) ==
      line + "\n" + Directive(param, value)
  {
    var d := Directive(param, value);
    LeadStopsInLine(line, "\n" + d, param);
    RewriteHeadCopied(line, "\n" + d, param, value);
    RewriteAcrossEmptyLine(param, value);
  }

  /** The contents the two calls see and leave on a one-line file that ends with a newline. */
  lemma SwallowContents(line: string, param: string, value: string)
    requires IsIdentifier(param) && IsPlainValue(value)
    requires '\n' !in line && LeadLen(line) < |line| && !DirectiveAt(line, param)
    ensures var appended := line + "\n" + "\n" + Directive(param, value);
      !Found(line + "\n", true, param) && Found(appended, true, param) &&
      Rewrite(appended, true, param, value) == line + "\n" + Directive(param, value)
  {
    var d := Directive(param, value);
    NotFoundInLine(line, param);
    FoundAppended(line + "\n", true, param, value);
    assert line + "\n" + "\n" + d == line + "\n" + ("\n" + d);
    RewriteAfterAppend(line, param, value);
  }

  /**
   * Not idempotent: on a file whose one line lacks the directive and which ends
   * with a newline (`x\n`, say), the first call appends after an empty line, and
   * the second call's `[#\s]*` runs across that empty line and deletes it.
   */
  lemma AppendThenRewriteSwallowsBlankLine(fs: FileSystem, path: string, line: string, param: string, value: string)
    requires IsIdentifier(param) && IsPlainValue(value)
    requires path in fs && fs[path] == line + "\n"
    requires '\n' !in line && LeadLen(line) < |line| && !DirectiveAt(line, param)
    ensures var once := UpdateConfig(fs, path, param, value).files;
      var twice := UpdateConfig(once, path, param, value).files;
      once[path] == line + "\n" + "\n" + Directive(param, value) &&
      twice[path] == line + "\n" + Directive(param, value) &&
      twice != once
  {
    SwallowContents(line, param, value);
    var once := UpdateConfig(fs, path, param, value).files;
    var twice := UpdateConfig(once, path, param, value).files;
    assert |twice[path]| < |once[path]|;
  }

  /**
   * The rewrite pattern lacks the search's trailing `\s`: a line whose name is
   * followed by a non-whitespace character is overwritten too, a longer name
   * such as `HostKeyAlgorithms b` by (`HostKey`, `k`), or the `Keyword=value`
   * form such as `HostKey=b`.
   */
  lemma RewriteClobbersLongerName(fs: FileSystem, path: string, param: string, previous: string, value: string, rest: string)
    requires IsIdentifier(param) && IsPlainValue(previous) && IsPlainValue(value)
    requires rest != [] && !IsSpace(rest[0]) && '\n' !in rest
    requires path in fs && fs[path] == Directive(param, previous) + "\n" + param + rest
    ensures UpdateConfig(fs, path, param, value).files[path] ==
      Directive(param, value) + "\n" + Directive(param, value)
  {
    var l0 := Directive(param, previous);
    var l1 := param + rest;
    assert fs[path] == l0 + "\n" + l1;
    DirectiveLineActive(param, previous, "\n" + l1);
    assert l0 + "\n" + l1 == l0 + ("\n" + l1);
    DirectiveLineActive(param, previous, []);
    assert l0 + [] == l0;
    DirectiveHasNoNewline(param, previous);
    RewriteHeadDirective(l0, l1, param, value);
    LongerNameLine(param, rest);
    assert l1[..|param|] == param;
    RewriteOneLine(l1, param, value);
  }

  /** A line carries the directive: `[#\s]*param` followed by whitespace or the end of the line. */
  predicate CarriesDirective(line: string, param: string) {
    DirectiveAt(line, param) &&
    (LeadLen(line) + |param| == |line| || IsSpace(line[LeadLen(line) + |param|]))
  }

  function RewriteCarrying(ls: seq<string>, param: string, value: string): (r: seq<string>)
    ensures |r| == |ls|
    ensures forall i :: 0 <= i < |ls| ==>
      r[i] == if CarriesDirective(ls[i], param) then Directive(param, value) else ls[i]
  {
    seq(|ls|, i requires 0 <= i < |ls| => if CarriesDirective(ls[i], param) then Directive(param, value) else ls[i])
  }

  predicate AnyCarries(ls: seq<string>, param: string) {
    exists i :: 0 <= i < |ls| && CarriesDirective(ls[i], param)
  }

  /** The directive is set to `value`: some line carries it, and every line that does is exactly `param value`. */
  predicate HoldsSetting(ls: seq<string>, param: string, value: string) {
    AnyCarries(ls, param) &&
    forall i :: 0 <= i < |ls| && CarriesDirective(ls[i], param) ==> ls[i] == Directive(param, value)
  }

  /**
   * The intended upsert: line by line, every line carrying the directive
   * becomes `param value`; when none does, the directive is appended after a
   * newline.
   */
  function UpdateLines(content: string, param: string, value: string): string {
    var ls := Lines(content);
    if AnyCarries(ls, param) then Join(RewriteCarrying(ls, param, value))
    else content + "\n" + Directive(param, value)
  }

  lemma DirectiveCarries(param: string, value: string)
    requires IsIdentifier(param)
    ensures CarriesDirective(Directive(param, value), param)
  {
    DirectiveLineActive(param, value, []);
    assert Directive(param, value) + [] == Directive(param, value);
  }

  lemma {:induction false} JoinSnoc(ls: seq<string>, x: string)
    requires |ls| >= 1
    ensures Join(ls + [x]) == Join(ls) + "\n" + x
  {
    if |ls| > 1 {
      assert (ls + [x])[1..] == ls[1..] + [x];
      JoinSnoc(ls[1..], x);
    }
  }

  lemma RewriteCarryingNoNewline(ls: seq<string>, param: string, value: string)
    requires IsIdentifier(param) && IsPlainValue(value)
    requires forall i :: 0 <= i < |ls| ==> '\n' !in ls[i]
    ensures forall i :: 0 <= i < |ls| ==> '\n' !in RewriteCarrying(ls, param, value)[i]
  {
    DirectiveHasNoNewline(param, value);
  }

  /**
   * The intended upsert keeps every line that does not carry the directive, a
   * longer name such as `HostKeyAlgorithms` included, and writes `param value`
   * in place of each one that does; with none, it appends.
   */
  lemma UpdateLinesKeepsOtherLines(content: string, param: string, value: string)
    requires IsIdentifier(param) && IsPlainValue(value)
    ensures var before := Lines(content);
      var out := UpdateLines(content, param, value);
      if AnyCarries(before, param) then
        |Lines(out)| == |before| &&
        forall i :: 0 <= i < |before| ==>
          Lines(out)[i] == if CarriesDirective(before[i], param) then Directive(param, value) else before[i]
      else
        out == content + "\n" + Directive(param, value)
  {
    if AnyCarries(Lines(content), param) {
      RewriteCarryingNoNewline(Lines(content), param, value);
      LinesJoin(RewriteCarrying(Lines(content), param, value));
    }
  }

  /** Rewriting carried lines a second time changes nothing. */
  lemma RewriteCarryingTwice(ls: seq<string>, param: string, value: string)
    requires IsIdentifier(param)
    ensures var r := RewriteCarrying(ls, param, value);
      RewriteCarrying(r, param, value) == r
  {
    DirectiveCarries(param, value);
  }

  lemma UpdateLinesIdempotentAfterRewrite(content: string, param: string, value: string)
    requires IsIdentifier(param) && IsPlainValue(value)
    requires AnyCarries(Lines(content), param)
    ensures var once := UpdateLines(content, param, value);
      UpdateLines(once, param, value) == once
  {
    var ls := Lines(content);
    var r := RewriteCarrying(ls, param, value);
    assert UpdateLines(content, param, value) == Join(r);
    RewriteCarryingNoNewline(ls, param, value);
    LinesJoin(r);
    UpdateLinesCarries(content, param, value);
    RewriteCarryingTwice(ls, param, value);
  }

  lemma UpdateLinesIdempotentAfterAppend(content: string, param: string, value: string)
    requires IsIdentifier(param) && IsPlainValue(value)
    requires !AnyCarries(Lines(content), param)
    ensures var once := UpdateLines(content, param, value);
      UpdateLines(once, param, value) == once
  {
    var ls := Lines(content);
    var d := Directive(param, value);
    DirectiveHasNoNewline(param, value);
    IndexOfAbsent(d, '\n');
    assert Lines(d) == [d];
    LinesAppend(content, d);
    var m := ls + [d];
    DirectiveCarries(param, value);
    assert CarriesDirective(m[|ls|], param);
    assert RewriteCarrying(m, param, value) == m;
    JoinSnoc(ls, d);
    JoinLines(content);
  }

  /** The intended upsert is idempotent, whether it rewrote or appended. */
  lemma UpdateLinesIdempotent(content: string, param: string, value: string)
    requires IsIdentifier(param) && IsPlainValue(value)
    ensures var once := UpdateLines(content, param, value);
      UpdateLines(once, param, value) == once
  {
    if AnyCarries(Lines(content), param) {
      UpdateLinesIdempotentAfterRewrite(content, param, value);
    } else {
      UpdateLinesIdempotentAfterAppend(content, param, value);
    }
  }

  /** A line that opens with the name followed by a non-whitespace character (a longer name, or `=`) holds no line end and does not carry the directive. */
  lemma LongerNameLine(param: string, rest: string)
    requires IsIdentifier(param)
    requires rest != [] && !IsSpace(rest[0]) && '\n' !in rest
    ensures '\n' !in param + rest
    ensures !CarriesDirective(param + rest, param)
  {
    var l1 := param + rest;
    assert '\n' !in l1 by {
      forall i | 0 <= i < |l1| ensures l1[i] != '\n' {
        if i < |param| {
          assert l1[i] == param[i] && IsIdentifierChar(param[i]);
        } else {
          assert l1[i] == rest[i - |param|];
        }
      }
    }
    assert LeadLen(l1) == 0 by {
      assert l1[0] == param[0] && IsIdentifierChar(param[0]);
    }
    assert l1[|param|] == rest[0];
  }

  /** The intended upsert leaves a line whose name is followed by a non-whitespace character alone. */
  lemma UpdateLinesSparesLongerName(param: string, previous: string, value: string, rest: string)
    requires IsIdentifier(param) && IsPlainValue(previous) && IsPlainValue(value)
    requires rest != [] && !IsSpace(rest[0]) && '\n' !in rest
    ensures UpdateLines(Directive(param, previous) + "\n" + param + rest, param, value) ==
      Directive(param, value) + "\n" + param + rest
  {
    var l0 := Directive(param, previous);
    var l1 := param + rest;
    var d := Directive(param, value);
    var ls := [l0, l1];
    LongerNameLine(param, rest);
    DirectiveHasNoNewline(param, previous);
    assert '\n' !in l0;
    JoinTwo(l0, l1);
    AppendAssoc(l0 + "\n", param, rest);
    LinesJoin(ls);
    DirectiveCarries(param, previous);
    assert CarriesDirective(ls[0], param);
    assert AnyCarries(ls, param);
    PairOf(RewriteCarrying(ls, param, value), d, l1);
    JoinTwo(d, l1);
    AppendAssoc(d + "\n", param, rest);
  }

  /** The lines after an append: the old lines, then the directive line. */
  lemma LinesAfterAppend(content: string, param: string, value: string)
    requires IsIdentifier(param) && IsPlainValue(value)
    ensures Lines(content + "\n" + Directive(param, value)) == Lines(content) + [Directive(param, value)]
  {
    var d := Directive(param, value);
    DirectiveHasNoNewline(param, value);
    IndexOfAbsent(d, '\n');
    assert Lines(d) == [d];
    LinesAppend(content, d);
  }

  /** After the corrected upsert some line carries the directive. */
  lemma UpdateLinesCarries(content: string, param: string, value: string)
    requires IsIdentifier(param) && IsPlainValue(value)
    ensures AnyCarries(Lines(UpdateLines(content, param, value)), param)
  {
    var ls := Lines(content);
    var out := UpdateLines(content, param, value);
    DirectiveCarries(param, value);
    UpdateLinesKeepsOtherLines(content, param, value);
    if AnyCarries(ls, param) {
      var i :| 0 <= i < |ls| && CarriesDirective(ls[i], param);
      assert Lines(out)[i] == Directive(param, value);
    } else {
      LinesAfterAppend(content, param, value);
      assert Lines(out)[|ls|] == Directive(param, value);
    }
  }

  /** Two prefixes of one text: the shorter is a prefix of the longer. */
  lemma PrefixesNest(t: string, a: string, b: string)
    requires StartsWith(t, a) && StartsWith(t, b) && |a| <= |b|
    ensures StartsWith(b, a)
  {
    assert b[..|a|] == t[..|b|][..|a|];
  }

  /** A line cannot carry two directives of which neither name is a prefix of the other. */
  lemma CarriesOne(line: string, param: string, other: string)
    requires !StartsWith(param, other) && !StartsWith(other, param)
    requires CarriesDirective(line, other)
    ensures !CarriesDirective(line, param)
  {
    var t := line[LeadLen(line)..];
    if CarriesDirective(line, param) {
      if |param| <= |other| {
        PrefixesNest(t, param, other);
      } else {
        PrefixesNest(t, other, param);
      }
    }
  }

  /** After the corrected upsert the directive is set to `value`. */
  lemma UpdateLinesSets(content: string, param: string, value: string)
    requires IsIdentifier(param) && IsPlainValue(value)
    ensures HoldsSetting(Lines(UpdateLines(content, param, value)), param, value)
  {
    var before := Lines(content);
    var after := Lines(UpdateLines(content, param, value));
    var d := Directive(param, value);
    UpdateLinesCarries(content, param, value);
    UpdateLinesKeepsOtherLines(content, param, value);
    if AnyCarries(before, param) {
      forall i | 0 <= i < |after|
        ensures CarriesDirective(after[i], param) ==> after[i] == d
      {
        if !CarriesDirective(before[i], param) {
          assert after[i] == before[i];
        }
      }
    } else {
      LinesAfterAppend(content, param, value);
      assert after == before + [d];
      forall i | 0 <= i < |after|
        ensures CarriesDirective(after[i], param) ==> after[i] == d
      {
        if i < |before| {
          assert after[i] == before[i];
        }
      }
    }
  }

  /**
   * The corrected upsert keeps a directive of another name: every line carrying
   * it stays where it was, unchanged, and no new line carries it.
   */
  lemma UpdateLinesKeepsOther(content: string, param: string, value: string, other: string)
    requires IsIdentifier(param) && IsPlainValue(value)
    requires !StartsWith(param, other) && !StartsWith(other, param)
    ensures var before := Lines(content);
      var after := Lines(UpdateLines(content, param, value));
      |before| <= |after| &&
      (forall i :: 0 <= i < |before| && CarriesDirective(before[i], other) ==> after[i] == before[i]) &&
      (forall j :: 0 <= j < |after| && CarriesDirective(after[j], other) ==> j < |before| && after[j] == before[j])
    ensures AnyCarries(Lines(content), other) ==> AnyCarries(Lines(UpdateLines(content, param, value)), other)
  {
    DirectiveCarries(param, value);
    CarriesOne(Directive(param, value), other, param);
    UpdateLinesKeepsOtherLines(content, param, value);
    if AnyCarries(Lines(content), param) {
      KeepsOtherInPlace(Lines(content), Lines(UpdateLines(content, param, value)), param, value, other);
    } else {
      LinesAfterAppend(content, param, value);
      KeepsOtherInPlace(Lines(content), Lines(UpdateLines(content, param, value)), param, value, other);
    }
  }

  /** Lines that are kept, or replaced by `param value`, keep every line carrying `other` and add none. */
  lemma KeepsOtherInPlace(before: seq<string>, after: seq<string>, param: string, value: string, other: string)
    requires !StartsWith(param, other) && !StartsWith(other, param)
    requires !CarriesDirective(Directive(param, value), other)
    requires |before| <= |after|
    requires forall i :: 0 <= i < |before| ==>
      after[i] == if CarriesDirective(before[i], param) then Directive(param, value) else before[i]
    requires forall j :: |before| <= j < |after| ==> after[j] == Directive(param, value)
    ensures forall i :: 0 <= i < |before| && CarriesDirective(before[i], other) ==> after[i] == before[i]
    ensures forall j :: 0 <= j < |after| && CarriesDirective(after[j], other) ==> j < |before| && after[j] == before[j]
  {
    forall i | 0 <= i < |before| && CarriesDirective(before[i], other)
      ensures after[i] == before[i]
    {
      CarriesOne(before[i], param, other);
    }
  }

  /** A setting of another name survives the corrected upsert with its value. */
  lemma UpdateLinesKeepsSetting(content: string, param: string, value: string, other: string, otherValue: string)
    requires IsIdentifier(param) && IsPlainValue(value)
    requires !StartsWith(param, other) && !StartsWith(other, param)
    requires HoldsSetting(Lines(content), other, otherValue)
    ensures HoldsSetting(Lines(UpdateLines(content, param, value)), other, otherValue)
  {
    UpdateLinesKeepsOther(content, param, value, other);
  }

  /**
   * The corrected `_update_config` on the file system: nothing happens
   * without the file; otherwise its text becomes the line-wise upsert, which
   * sets the directive to `value`.
   */
  function UpdateFile(fs: FileSystem, path: string, param: string, value: string): (r: ConfigUpdate)
    requires IsIdentifier(param) && IsPlainValue(value)
    ensures r.written <==> path in fs
    ensures !r.written ==> r.files == fs
    ensures r.written ==> r.files.Keys == fs.Keys
    ensures forall q :: q in fs && q != path ==> q in r.files && r.files[q] == fs[q]
    ensures r.written ==> r.files[path] == UpdateLines(fs[path], param, value)
    ensures r.written ==> HoldsSetting(Lines(r.files[path]), param, value)
  {
    if path !in fs then ConfigUpdate(false, fs)
    else
      UpdateLinesSets(fs[path], param, value);
      ConfigUpdate(true, fs[path := UpdateLines(fs[path], param, value)])
  }

  /** A second setting written into the same file keeps the first one's line and value. */
  lemma UpdateFileKeepsOther(fs: FileSystem, path: string, param: string, value: string, other: string, otherValue: string)
    requires IsIdentifier(param) && IsPlainValue(value)
    requires !StartsWith(param, other) && !StartsWith(other, param)
    requires path in fs && AnyCarries(Lines(fs[path]), other)
    ensures AnyCarries(Lines(UpdateFile(fs, path, param, value).files[path]), other)
    ensures HoldsSetting(Lines(fs[path]), other, otherValue) ==>
      HoldsSetting(Lines(UpdateFile(fs, path, param, value).files[path]), other, otherValue)
  {
    UpdateLinesKeepsOther(fs[path], param, value, other);
    if HoldsSetting(Lines(fs[path]), other, otherValue) {
      UpdateLinesKeepsSetting(fs[path], param, value, other, otherValue);
    }
  }

  /** Two settings written one after the other into the same file: afterwards both hold, each with its value. */
  function UpdateFileTwice(fs: FileSystem, path: string, param: string, value: string, param2: string, value2: string): (r: FileSystem)
    requires IsIdentifier(param) && IsPlainValue(value) && IsIdentifier(param2) && IsPlainValue(value2)
    requires !StartsWith(param, param2) && !StartsWith(param2, param)
    ensures path !in fs ==> r == fs
    ensures forall q :: q in fs && q != path ==> q in r && r[q] == fs[q]
    ensures path in fs ==>
      path in r && r[path] == UpdateLines(UpdateLines(fs[path], param, value), param2, value2) &&
      HoldsSetting(Lines(r[path]), param, value) && HoldsSetting(Lines(r[path]), param2, value2)
  {
    var first := UpdateFile(fs, path, param, value).files;
    if path in fs then
      UpdateFileKeepsOther(first, path, param2, value2, param, value);
      UpdateFile(first, path, param2, value2).files
    else
      UpdateFile(first, path, param2, value2).files
  }
}
