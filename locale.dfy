/**
 * The text rules of `change_locale` (docesetup.py:580-712): the table of
 * languages offered, the lookup of the locale chosen by its description, the
 * uncommenting of that locale in /etc/locale.gen and the language code used
 * for the Fedora language packs.
 */
module Locale {
  import opened Text
  import opened Wrappers

  const LocaleGenPath := "/etc/locale.gen"
  const LocaleConfPath := "/etc/locale.conf"

  /** The locales offered, each with the description shown in the menu. */
  const Locales: seq<(string, string)> := [
    ("en_US.UTF-8", "🇺🇸 Inglês (Estados Unidos)"),
    ("es_ES.UTF-8", "🇪🇸 Espanhol (Espanha)"),
    ("fr_FR.UTF-8", "🇫🇷 Francês (França)"),
    ("de_DE.UTF-8", "🇩🇪 Alemão (Alemanha)"),
    ("it_IT.UTF-8", "🇮🇹 Italiano (Itália)"),
    ("pt_BR.UTF-8", "🇧🇷 Português (Brasil)"),
    ("ru_RU.UTF-8", "🇷🇺 Russo (Rússia)"),
    ("zh_CN.UTF-8", "🇨🇳 Chinês (China)"),
    ("ja_JP.UTF-8", "🇯🇵 Japonês (Japão)"),
    ("ko_KR.UTF-8", "🇰🇷 Coreano (Coreia)"),
    ("ar_SA.UTF-8", "🇸🇦 Árabe (Arábia Saudita)")
  ]

  /** The menu shown to the user: the descriptions, in table order. */
  function Descriptions(table: seq<(string, string)>): (ds: seq<string>)
    ensures |ds| == |table| && forall i :: 0 <= i < |table| ==> ds[i] == table[i].1
  {
    seq(|table|, i requires 0 <= i < |table| => table[i].1)
  }

  /** The code of the first entry whose description is `desc`. */
  function LocaleFor(table: seq<(string, string)>, desc: string): (r: Option<string>)
    ensures r.None? <==> desc !in Descriptions(table)
  {
    if table == [] then None
    else if table[0].1 == desc then Some(table[0].0)
    else
      assert Descriptions(table) == [table[0].1] + Descriptions(table[1..]);
      LocaleFor(table[1..], desc)
  }

  /** The search loop of `change_locale`: the first entry with the chosen description, if any. */
  method FindLocale(table: seq<(string, string)>, desc: string) returns (r: Option<string>)
    ensures r == LocaleFor(table, desc)
  {
    r := None;
    var i := 0;
    while i < |table|
      invariant 0 <= i <= |table|
      invariant LocaleFor(table, desc) == LocaleFor(table[i..], desc)
    {
      assert table[i..][1..] == table[i + 1..];
      if table[i].1 == desc {
        r := Some(table[i].0);
        break;
      }
      i := i + 1;
    }
  }

  predicate DistinctDescriptions(table: seq<(string, string)>) {
    forall i, j :: 0 <= i < j < |table| ==> table[i].1 != table[j].1
  }

  /** With distinct descriptions, choosing the `i`-th description gives the `i`-th locale. */
  lemma {:induction false} LocaleForEntry(table: seq<(string, string)>, i: nat)
    requires i < |table| && DistinctDescriptions(table)
    ensures LocaleFor(table, table[i].1) == Some(table[i].0)
  {
    if i > 0 {
      assert table[0].1 != table[i].1;
      assert table[1..][i - 1] == table[i];
      LocaleForEntry(table[1..], i - 1);
    }
  }

  lemma LocalesDistinct()
    ensures DistinctDescriptions(Locales)
  {
  }

  /** `locale.split('_')[0]`: the text before the first underscore. */
  function LanguageCode(locale: string): string {
    locale[..IndexOf(locale, '_')]
  }

  /** The language code of `lang_REGION...` is `lang`. */
  lemma LanguageCodeOf(lang: string, rest: string)
    requires '_' !in lang
    ensures LanguageCode(lang + "_" + rest) == lang
  {
    IndexOfAfter(lang, '_', rest);
    assert (lang + "_" + rest)[..|lang|] == lang;
  }

  /** A locale without an underscore is its own language code. */
  lemma LanguageCodeWhole(locale: string)
    requires '_' !in locale
    ensures LanguageCode(locale) == locale
  {
    IndexOfAbsent(locale, '_');
  }

  /** The locales the regex `^#\s*{locale}` is built from: a letter first, no newline. */
  predicate IsLocaleName(locale: string) {
    locale != [] && ('a' <= locale[0] <= 'z' || 'A' <= locale[0] <= 'Z') && '\n' !in locale
  }

  /** `locale` as a pattern matches the start of `s`: `.` stands for any character but a newline. */
  predicate MatchesLocale(s: string, locale: string) {
    |locale| <= |s| &&
    forall i :: 0 <= i < |locale| ==> if locale[i] == '.' then s[i] != '\n' else s[i] == locale[i]
  }

  /** The length of the run of whitespace that starts `s`. */
  function SpaceRun(s: string): (k: nat)
    ensures k <= |s|
  {
    |s| - |TrimStart(s)|
  }

  /**
   * `re.sub(f"^#\\s*{locale}", locale, s, flags=re.MULTILINE)`: at a line
   * start, a `#`, the whitespace after it (newlines included) and a match of
   * the locale are replaced by the locale; every other character is copied.
   */
  function Uncomment(s: string, atLineStart: bool, locale: string): string
    decreases |s|
  {
    if s == [] then []
    else
      var k := SpaceRun(s[1..]);
      if atLineStart && s[0] == '#' && MatchesLocale(s[1 + k..], locale) then
        locale + Uncomment(s[1 + k + |locale|..], false, locale)
      else [s[0]] + Uncomment(s[1..], s[0] == '\n', locale)
  }

  /** The line a line of locale.gen becomes, when it is not a bare `#`. */
  function UncommentLine(line: string, locale: string): string {
    if line != [] && line[0] == '#' && MatchesLocale(line[1 + SpaceRun(line[1..])..], locale) then
      locale + line[1 + SpaceRun(line[1..]) + |locale|..]
    else line
  }

  /** A line that is `#` and whitespace only: there `\s*` runs on into the next line. */
  predicate IsBareHash(line: string) {
    line != [] && line[0] == '#' && TrimStart(line[1..]) == []
  }

  /** Characters after a line start are copied up to and including the next newline. */
  lemma {:induction false} UncommentCopiesLine(x: string, r: string, atLineStart: bool, locale: string)
    requires '\n' !in x
    requires atLineStart ==> x == [] || x[0] != '#'
    ensures Uncomment(x + "\n" + r, atLineStart, locale) == x + "\n" + Uncomment(r, true, locale)
  {
    if x == [] {
      DropLine(x, r, 1 - 1);
      TailAppend("\n", r);
    } else {
      DropLine(x, r, 1);
      UncommentCopiesLine(x[1..], r, false, locale);
      ConsLine(x[0], x[1..], Uncomment(r, true, locale));
      ConsSplit(x);
    }
  }

  /** The same at the end of the text. */
  lemma {:induction false} UncommentCopiesLast(x: string, atLineStart: bool, locale: string)
    requires '\n' !in x
    requires atLineStart ==> x == [] || x[0] != '#'
    ensures Uncomment(x, atLineStart, locale) == x
  {
    if x != [] {
      UncommentCopiesLast(x[1..], false, locale);
    }
  }

  /** Whitespace inside a line that has a non-space character after it stops before the newline. */
  lemma SpaceRunInLine(x: string, r: string)
    requires TrimStart(x) != []
    ensures SpaceRun(x + "\n" + r) == SpaceRun(x)
  {
    AppendAssoc(x, "\n", r);
    SpaceRunAppend(x, "\n" + r);
  }

  /** Whitespace followed by a non-space character stops there, whatever comes after. */
  lemma {:induction false} SpaceRunAppend(x: string, y: string)
    requires TrimStart(x) != []
    ensures SpaceRun(x + y) == SpaceRun(x)
  {
    TailAppend(x, y);
    if IsSpace(x[0]) {
      SpaceRunAppend(x[1..], y);
    }
  }

  lemma {:induction false} TrimStartSkips(s: string, k: nat)
    requires k < |s| && !IsSpace(s[k]) && forall i :: 0 <= i < k ==> IsSpace(s[i])
    ensures SpaceRun(s) == k
  {
    if k > 0 {
      TrimStartSkips(s[1..], k - 1);
    }
  }

  /** A locale cannot match across a newline. */
  lemma MatchStopsAtNewline(y: string, r: string, locale: string)
    requires '\n' !in locale && '\n' !in y
    ensures MatchesLocale(y + "\n" + r, locale) <==> MatchesLocale(y, locale)
  {
    var s := y + "\n" + r;
    assert s[|y|] == '\n';
    if MatchesLocale(y, locale) {
      assert forall i :: 0 <= i < |locale| ==> s[i] == y[i];
    }
  }

  /** A step of the substitution where the locale matches after a `#` at a line start. */
  lemma UncommentMatch(s: string, locale: string)
    requires s != [] && s[0] == '#' && MatchesLocale(s[1 + SpaceRun(s[1..])..], locale)
    ensures Uncomment(s, true, locale) == locale + Uncomment(s[1 + SpaceRun(s[1..]) + |locale|..], false, locale)
  {
  }

  /** A step of the substitution where one character is copied. */
  lemma UncommentCopy(s: string, atLineStart: bool, locale: string)
    requires s != [] && !(atLineStart && s[0] == '#' && MatchesLocale(s[1 + SpaceRun(s[1..])..], locale))
    ensures Uncomment(s, atLineStart, locale) == [s[0]] + Uncomment(s[1..], s[0] == '\n', locale)
  {
  }

  /** The positions after `#` and its spaces agree between a line and the line followed by more text. */
  lemma CommentedPrefix(l: string, r: string)
    requires '\n' !in l && !IsBareHash(l) && l != [] && l[0] == '#'
    ensures var s := l + "\n" + r;
      var k := SpaceRun(l[1..]);
      SpaceRun(s[1..]) == k && s[1 + k..] == l[1 + k..] + "\n" + r
  {
    DropLine(l, r, 1);
    DropLine(l, r, 1 + SpaceRun(l[1..]));
    SpaceRunInLine(l[1..], r);
  }

  lemma UncommentMatchThenCopy(s: string, k: nat, z: string, r: string, locale: string)
    requires s != [] && s[0] == '#' && SpaceRun(s[1..]) == k && 1 + k <= |s|
    requires MatchesLocale(s[1 + k..], locale)
    requires '\n' !in z && s[1 + k + |locale|..] == z + "\n" + r
    ensures Uncomment(s, true, locale) == locale + (z + "\n" + Uncomment(r, true, locale))
  {
    UncommentMatch(s, locale);
    UncommentCopiesLine(z, r, false, locale);
  }

  /** A commented line that matches the locale, and what follows it. */
  lemma UncommentMatchingLine(l: string, r: string, locale: string)
    requires IsLocaleName(locale) && '\n' !in l && !IsBareHash(l) && l != [] && l[0] == '#'
    requires MatchesLocale(l[1 + SpaceRun(l[1..])..], locale)
    ensures Uncomment(l + "\n" + r, true, locale) ==
      (locale + l[1 + SpaceRun(l[1..]) + |locale|..]) + "\n" + Uncomment(r, true, locale)
  {
    var s := l + "\n" + r;
    var k := SpaceRun(l[1..]);
    var z := l[1 + k + |locale|..];
    var u := Uncomment(r, true, locale);
    assert Uncomment(s, true, locale) == locale + (z + "\n" + u) by {
      assert SpaceRun(s[1..]) == k && s[1 + k..] == l[1 + k..] + "\n" + r by {
        CommentedPrefix(l, r);
      }
      assert MatchesLocale(s[1 + k..], locale) by {
        MatchStopsAtNewline(l[1 + k..], r, locale);
      }
      assert s[1 + k + |locale|..] == z + "\n" + r;
      UncommentMatchThenCopy(s, k, z, r, locale);
    }
    Regroup(locale, z, u);
  }

  lemma UncommentLineMatching(l: string, locale: string)
    requires l != [] && l[0] == '#' && MatchesLocale(l[1 + SpaceRun(l[1..])..], locale)
    ensures UncommentLine(l, locale) == locale + l[1 + SpaceRun(l[1..]) + |locale|..]
  {
  }

  lemma Regroup(a: string, b: string, c: string)
    ensures a + (b + "\n" + c) == (a + b) + "\n" + c
  {
  }

  /** A commented line that does not match the locale, and what follows it. */
  lemma UncommentOtherCommentedLine(l: string, r: string, locale: string)
    requires IsLocaleName(locale) && '\n' !in l && !IsBareHash(l) && l != [] && l[0] == '#'
    requires !MatchesLocale(l[1 + SpaceRun(l[1..])..], locale)
    ensures Uncomment(l + "\n" + r, true, locale) == UncommentLine(l, locale) + "\n" + Uncomment(r, true, locale)
  {
    var s := l + "\n" + r;
    var k := SpaceRun(l[1..]);
    var u := Uncomment(r, true, locale);
    assert SpaceRun(s[1..]) == k && s[1 + k..] == l[1 + k..] + "\n" + r by {
      CommentedPrefix(l, r);
    }
    assert !MatchesLocale(s[1 + k..], locale) by {
      MatchStopsAtNewline(l[1 + k..], r, locale);
    }
    assert Uncomment(s, true, locale) == [s[0]] + Uncomment(s[1..], false, locale) by {
      UncommentCopy(s, true, locale);
    }
    DropLine(l, r, 1);
    assert Uncomment(l[1..] + "\n" + r, false, locale) == l[1..] + "\n" + u by {
      UncommentCopiesLine(l[1..], r, false, locale);
    }
    assert UncommentLine(l, locale) == l;
    ConsLine(l[0], l[1..], u);
    ConsSplit(l);
  }

  /** One line of locale.gen and what follows it. */
  lemma UncommentFirstLine(l: string, r: string, locale: string)
    requires IsLocaleName(locale) && '\n' !in l && !IsBareHash(l)
    ensures Uncomment(l + "\n" + r, true, locale) == UncommentLine(l, locale) + "\n" + Uncomment(r, true, locale)
  {
    if l != [] && l[0] == '#' {
      if MatchesLocale(l[1 + SpaceRun(l[1..])..], locale) {
        UncommentMatchingLine(l, r, locale);
        UncommentLineMatching(l, locale);
      } else {
        UncommentOtherCommentedLine(l, r, locale);
      }
    } else {
      UncommentCopiesLine(l, r, true, locale);
    }
  }

  /** The last line of locale.gen. */
  lemma UncommentLastLine(l: string, locale: string)
    requires IsLocaleName(locale) && '\n' !in l
    ensures Uncomment(l, true, locale) == UncommentLine(l, locale)
  {
    if l != [] && l[0] == '#' {
      if MatchesLocale(l[1 + SpaceRun(l[1..])..], locale) {
        UncommentLastMatching(l, locale);
      } else {
        UncommentLastOther(l, locale);
      }
    } else {
      UncommentCopiesLast(l, true, locale);
    }
  }
  lemma UncommentLastMatching(l: string, locale: string)
    requires '\n' !in l && l != [] && l[0] == '#' && MatchesLocale(l[1 + SpaceRun(l[1..])..], locale)
    ensures Uncomment(l, true, locale) == UncommentLine(l, locale)
  {
    var t := l[1 + SpaceRun(l[1..]) + |locale|..];
    UncommentMatch(l, locale);
    assert '\n' !in t;
    UncommentCopiesLast(t, false, locale);
    UncommentLineMatching(l, locale);
  }
  lemma UncommentLastOther(l: string, locale: string)
    requires '\n' !in l && l != [] && l[0] == '#' && !MatchesLocale(l[1 + SpaceRun(l[1..])..], locale)
    ensures Uncomment(l, true, locale) == UncommentLine(l, locale)
  {
    UncommentCopy(l, true, locale);
    assert '\n' !in l[1..];
    UncommentCopiesLast(l[1..], false, locale);
    ConsSplit(l);
  }


  function UncommentLines(ls: seq<string>, locale: string): (r: seq<string>)
    ensures |r| == |ls| && forall i :: 0 <= i < |ls| ==> r[i] == UncommentLine(ls[i], locale)
  {
    seq(|ls|, i requires 0 <= i < |ls| => UncommentLine(ls[i], locale))
  }

  lemma UncommentLinesCons(ls: seq<string>, locale: string)
    requires |ls| >= 2
    ensures Join(UncommentLines(ls, locale)) ==
      UncommentLine(ls[0], locale) + "\n" + Join(UncommentLines(ls[1..], locale))
  {
    assert UncommentLines(ls, locale)[1..] == UncommentLines(ls[1..], locale);
  }

  predicate NoBareHash(ls: seq<string>) {
    forall i :: 0 <= i < |ls| ==> !IsBareHash(ls[i])
  }

  lemma NoBareHashCons(ls: seq<string>)
    requires |ls| >= 1 && NoBareHash(ls)
    ensures !IsBareHash(ls[0]) && NoBareHash(ls[1..])
  {
    assert forall i :: 0 <= i < |ls| - 1 ==> ls[1..][i] == ls[i + 1];
  }

  /**
   * When no line of locale.gen is a bare `#`, the substitution works line by
   * line: a commented line whose text after `#` and spaces matches the locale
   * loses that prefix in favour of the locale, and every other line is kept.
   */
  lemma {:induction false} UncommentLinewise(s: string, locale: string)
    requires IsLocaleName(locale)
    requires NoBareHash(Lines(s))
    ensures Uncomment(s, true, locale) == Join(UncommentLines(Lines(s), locale))
    decreases |s|
  {
    var n := IndexOf(s, '\n');
    if n == |s| {
      UncommentLastLine(s, locale);
    } else {
      var l := s[..n];
      var r := s[n + 1..];
      SplitLine(s, n);
      LinesCons(s, n);
      NoBareHashCons(Lines(s));
      UncommentLinewise(r, locale);
      UncommentFirstLine(l, r, locale);
      UncommentLinesCons(Lines(s), locale);
    }
  }

  /** `# en_US.UTF-8 UTF-8` becomes `en_US.UTF-8 UTF-8`: the comment mark and the spaces go. */
  lemma UncommentsChosenLine(spaces: string, locale: string, rest: string)
    requires IsLocaleName(locale) && '\n' !in rest
    requires forall i :: 0 <= i < |spaces| ==> IsSpace(spaces[i]) && spaces[i] != '\n'
    ensures UncommentLine("#" + spaces + locale + rest, locale) == locale + rest
  {
    var line := "#" + spaces + locale + rest;
    assert line[1..] == spaces + (locale + rest);
    TrimStartSkips(line[1..], |spaces|);
    assert line[1 + |spaces|..] == locale + rest;
    assert line[1 + |spaces| + |locale|..] == rest;
  }

  /** The dot of the locale matches any character, so `#en_US-UTF-8` is rewritten as well. */
  lemma DotIsWildcard(locale: string, line: string)
    requires IsLocaleName(locale) && '\n' !in line && |line| == |locale|
    requires forall i :: 0 <= i < |locale| && locale[i] != '.' ==> line[i] == locale[i]
    ensures UncommentLine("#" + line, locale) == locale
  {
    AfterFirst('#', line);
    assert line[0] == locale[0];
    TrimStartSkips(line, 0);
    assert line[0..] == line;
    assert MatchesLocale(line, locale);
    assert line[|locale|..] == [];
  }
}
