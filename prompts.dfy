/**
 * The two console prompts, `_ask` and `_select_option` (docesetup.py:184-213),
 * on the plain-console path. The lines the user types are a sequence; running
 * out of them is `EndOfInput`, where `input()` raises `EOFError`, which the
 * script does not catch.
 */
module Prompts {
  import opened Text
  import opened Wrappers

  /** What a prompt obtains: an answer and the lines left unread, or the end of the input. */
  datatype Reply<T> = Answered(value: T, rest: seq<string>) | EndOfInput

  const YesWords: seq<string> := ["s", "sim", "y", "yes"]
  const NoWords: seq<string> := ["n", "nao", "não", "no"]

  /** How `_ask` reads one line: yes, no, or neither (and then it asks again). */
  function Classify(line: string): Option<bool> {
    var r := Lower(line);
    if r in YesWords then Some(true)
    else if r in NoWords then Some(false)
    else None
  }

  /** The reply `_ask` gets from the lines `input` when every line is read by it. */
  function AskOutcome(input: seq<string>): (r: Reply<bool>)
    ensures r.Answered? ==> |r.rest| < |input| && r.rest == input[|input| - |r.rest|..]
  {
    if input == [] then EndOfInput
    else match Classify(input[0])
      case Some(b) => Answered(b, input[1..])
      case None => AskOutcome(input[1..])
  }

  /** A suffix of a suffix of the input is a suffix of the input: the lines left unread only shrink. */
  lemma SuffixOfSuffix(input: seq<string>, rest: seq<string>, rest2: seq<string>)
    requires |rest| <= |input| && rest == input[|input| - |rest|..]
    requires |rest2| <= |rest| && rest2 == rest[|rest| - |rest2|..]
    ensures |rest2| <= |input| && rest2 == input[|input| - |rest2|..]
  {
  }

  /** `_ask`: prompt until a line reads as yes or no. */
  method Ask(input: seq<string>) returns (r: Reply<bool>)
    ensures r == AskOutcome(input)
  {
    var i := 0;
    while true
      invariant 0 <= i <= |input|
      invariant AskOutcome(input[i..]) == AskOutcome(input)
      decreases |input| - i
    {
      if i == |input| {
        return EndOfInput;
      }
      assert input[i..][1..] == input[i + 1..];
      var response := Lower(input[i]);
      if response in YesWords {
        return Answered(true, input[i + 1..]);
      } else if response in NoWords {
        return Answered(false, input[i + 1..]);
      }
      i := i + 1;
    }
  }

  /**
   * `_ask` answers with the first line that reads as yes or no and leaves the
   * lines after it; without such a line the input runs out.
   */
  lemma AskTakesFirstRecognised(input: seq<string>)
    ensures AskOutcome(input).EndOfInput? <==> forall j :: 0 <= j < |input| ==> Classify(input[j]).None?
    ensures AskOutcome(input).Answered? ==>
      exists i :: 0 <= i < |input| && Classify(input[i]) == Some(AskOutcome(input).value) &&
        AskOutcome(input).rest == input[i + 1..] &&
        (forall j :: 0 <= j < i ==> Classify(input[j]).None?)
  {
    AskEndsIff(input);
    AskAnswersFirst(input);
  }

  /** An unrecognised first line is skipped. */
  lemma AskSkips(input: seq<string>)
    requires input != [] && Classify(input[0]).None?
    ensures AskOutcome(input) == AskOutcome(input[1..])
    ensures forall j :: 0 < j < |input| ==> input[j] == input[1..][j - 1]
  {
  }

  lemma {:induction false} AskEndsIff(input: seq<string>)
    ensures AskOutcome(input).EndOfInput? <==> forall j :: 0 <= j < |input| ==> Classify(input[j]).None?
  {
    if input != [] && Classify(input[0]).None? {
      AskSkips(input);
      AskEndsIff(input[1..]);
    }
  }

  lemma {:induction false} AskAnswersFirst(input: seq<string>)
    ensures AskOutcome(input).Answered? ==>
      exists i :: 0 <= i < |input| && Classify(input[i]) == Some(AskOutcome(input).value) &&
        AskOutcome(input).rest == input[i + 1..] &&
        (forall j :: 0 <= j < i ==> Classify(input[j]).None?)
  {
    if input != [] && Classify(input[0]).None? {
      var rest := input[1..];
      AskSkips(input);
      AskAnswersFirst(rest);
      if AskOutcome(rest).Answered? {
        var i :| 0 <= i < |rest| && Classify(rest[i]) == Some(AskOutcome(rest).value) &&
          AskOutcome(rest).rest == rest[i + 1..] &&
          (forall j :: 0 <= j < i ==> Classify(rest[j]).None?);
        assert input[i + 2..] == rest[i + 1..];
      }
    }
  }

  /** The answer does not depend on letter case: `SIM`, `Yes` and `NÃO` read like `sim`, `yes` and `não`. */
  lemma ClassifyIgnoresCase(line: string)
    ensures Classify(Lower(line)) == Classify(line)
  {
    LowerIdempotent(line);
  }

  lemma YesAndNoDisjoint()
    ensures forall w :: w in YesWords ==> w !in NoWords
  {
  }

  predicate IsAsciiDigit(c: char) {
    '0' <= c <= '9'
  }

  /** The digits `int()` accepts: ASCII digits, with single underscores only between two digits. */
  predicate IsDigitRun(d: string) {
    d != [] && IsAsciiDigit(d[0]) && IsDigitTail(d[1..])
  }

  /** What may follow a digit: more digits, each possibly after one underscore. */
  predicate IsDigitTail(d: string)
    decreases |d|
  {
    d == [] ||
    (IsAsciiDigit(d[0]) && IsDigitTail(d[1..])) ||
    (|d| >= 2 && d[0] == '_' && IsAsciiDigit(d[1]) && IsDigitTail(d[2..]))
  }

  /** The value of a run of digits, underscores ignored. */
  function DigitsValue(d: string): nat {
    if d == [] then 0
    else
      var c := d[|d| - 1];
      if IsAsciiDigit(c) then DigitsValue(d[..|d| - 1]) * 10 + (c as int - '0' as int)
      else DigitsValue(d[..|d| - 1])
  }

  /**
   * The whitespace `int()` skips around a number: the ASCII `\t\n\v\f\r` and
   * space, and the Latin-1 spaces U+0085 and U+00A0, which it reads as a space.
   * Unlike `isspace()`, it does not take the separators U+001C to U+001F.
   */
  predicate IsIntSpace(c: char) {
    (9 <= c as int <= 13) || c == ' ' || c as int == 0x85 || c as int == 0xa0
  }

  function TrimIntStart(s: string): (r: string)
    ensures |r| <= |s| && r == s[|s| - |r|..]
    ensures r != [] ==> !IsIntSpace(r[0])
    ensures forall i :: 0 <= i < |s| - |r| ==> IsIntSpace(s[i])
  {
    if s != [] && IsIntSpace(s[0]) then TrimIntStart(s[1..]) else s
  }

  function TrimIntEnd(s: string): (r: string)
    ensures |r| <= |s| && r == s[..|r|]
    ensures r != [] ==> !IsIntSpace(r[|r| - 1])
    ensures forall i :: |r| <= i < |s| ==> IsIntSpace(s[i])
  {
    if s != [] && IsIntSpace(s[|s| - 1]) then TrimIntEnd(s[..|s| - 1]) else s
  }

  /** The text `int()` reads: `int()` whitespace removed at both ends. */
  function IntStrip(s: string): (t: string)
    ensures t != [] ==> !IsIntSpace(t[0]) && !IsIntSpace(t[|t| - 1])
  {
    TrimIntEnd(TrimIntStart(s))
  }

  /**
   * `int(s)` for a decimal string: the whitespace of `IsIntSpace` removed at
   * both ends, an optional sign, then digits; `None` where `int()` raises `ValueError`.
   */
  function ParseInt(s: string): Option<int> {
    var t := IntStrip(s);
    if t != [] && (t[0] == '+' || t[0] == '-') then
      if IsDigitRun(t[1..]) then
        var v: int := DigitsValue(t[1..]);
        Some(if t[0] == '-' then -v else v)
      else None
    else if IsDigitRun(t) then Some(DigitsValue(t))
    else None
  }

  /** The decimal text of a natural number, as the user types it. */
  function ShowNat(n: nat): (s: string)
    ensures s != [] && forall i :: 0 <= i < |s| ==> IsAsciiDigit(s[i])
  {
    var digit := ('0' as int + n % 10) as char;
    if n < 10 then [digit] else ShowNat(n / 10) + [digit]
  }

  lemma {:induction false} DigitsValueShowNat(n: nat)
    ensures DigitsValue(ShowNat(n)) == n
  {
    var s := ShowNat(n);
    assert s[..|s| - 1] == if n < 10 then [] else ShowNat(n / 10);
    if n >= 10 {
      DigitsValueShowNat(n / 10);
    }
  }

  /** A text with no `int()` whitespace at either end is left as it is. */
  lemma TrimIntUnchanged(s: string)
    requires s != [] && !IsIntSpace(s[0]) && !IsIntSpace(s[|s| - 1])
    ensures TrimIntEnd(TrimIntStart(s)) == s
  {
    assert TrimIntStart(s) == s;
  }

  /** ASCII digits alone form a run `int()` accepts. */
  lemma AllDigitsRun(s: string)
    requires s != [] && forall i :: 0 <= i < |s| ==> IsAsciiDigit(s[i])
    ensures IsDigitRun(s)
  {
    AllDigitsTail(s[1..]);
  }

  lemma {:induction false} AllDigitsTail(s: string)
    requires forall i :: 0 <= i < |s| ==> IsAsciiDigit(s[i])
    ensures IsDigitTail(s)
    decreases |s|
  {
    if s != [] {
      AllDigitsTail(s[1..]);
    }
  }

  /** An unsigned text without surrounding whitespace is read by its digits alone. */
  lemma ParseUnsigned(s: string)
    requires s != [] && IsAsciiDigit(s[0]) && !IsIntSpace(s[|s| - 1]) && IsDigitRun(s)
    ensures ParseInt(s) == Some(DigitsValue(s))
  {
    TrimIntUnchanged(s);
  }

  /** A run of ASCII digits is read as its value. */
  lemma ParseDigits(s: string)
    requires s != [] && forall i :: 0 <= i < |s| ==> IsAsciiDigit(s[i])
    ensures ParseInt(s) == Some(DigitsValue(s))
  {
    AllDigitsRun(s);
    ParseUnsigned(s);
  }

  /** Reading back the decimal text of a number gives the number. */
  lemma ParseShowNat(n: nat)
    ensures ParseInt(ShowNat(n)) == Some(n)
  {
    ParseDigits(ShowNat(n));
    DigitsValueShowNat(n);
  }

  /** Spaces and line ends around the number are skipped. */
  lemma ParseSpacedNat(n: nat)
    ensures ParseInt(" " + ShowNat(n) + "\r\n") == Some(n)
  {
    var s := ShowNat(n);
    TrimIntSpaced(s);
    ParseShowNat(n);
  }

  /** The space in front and the line end behind a text that has no `int()` whitespace at its ends are trimmed. */
  lemma TrimIntSpaced(s: string)
    requires s != [] && !IsIntSpace(s[0]) && !IsIntSpace(s[|s| - 1])
    ensures TrimIntEnd(TrimIntStart(" " + s + "\r\n")) == TrimIntEnd(TrimIntStart(s))
  {
    var u := " " + s + "\r\n";
    assert u[1..] == s + "\r\n";
    assert TrimIntStart(u) == s + "\r\n";
    TrimIntEndSpaces(s);
    TrimIntUnchanged(s);
  }

  lemma TrimIntEndSpaces(s: string)
    requires s != [] && !IsIntSpace(s[|s| - 1])
    ensures TrimIntEnd(s + "\r\n") == s
  {
    assert (s + "\r\n")[..|s| + 1] == s + "\r";
    assert (s + "\r")[..|s|] == s;
  }

  /** A file separator U+001C in front of the number makes `int()` fail, though `isspace()` holds of it. */
  lemma ParseRejectsSeparator(n: nat)
    ensures IsSpace('\U{1C}') && ParseInt("\U{1C}" + ShowNat(n)) == None
  {
    var u := "\U{1C}" + ShowNat(n);
    assert TrimIntStart(u) == u;
    assert u[|u| - 1] == ShowNat(n)[|ShowNat(n)| - 1];
    assert TrimIntEnd(u) == u;
  }

  /** The option number a line picks among `count` options: `int(line)` when it is from 1 to `count`. */
  function ChoiceOf(count: nat, line: string): (r: Option<nat>)
    ensures r.Some? ==> 1 <= r.value <= count
  {
    var n := ParseInt(line);
    if n.Some? && 1 <= n.value <= count then Some(n.value) else None
  }

  /** The reply `_select_option` gets: the first line that reads as a number from 1 to the number of options picks that option. */
  function SelectOutcome(options: seq<string>, input: seq<string>): (r: Reply<string>)
    ensures r.Answered? ==> r.value in options && |r.rest| < |input| && r.rest == input[|input| - |r.rest|..]
  {
    if input == [] then EndOfInput
    else
      var picked := Picked(options, input[0]);
      if picked.Some? then Answered(picked.value, input[1..])
      else SelectOutcome(options, input[1..])
  }

  /** The option a line picks, if any. */
  function Picked(options: seq<string>, line: string): (r: Option<string>)
    ensures r.Some? ==> r.value in options
  {
    var choice := ChoiceOf(|options|, line);
    if choice.Some? then Some(options[choice.value - 1]) else None
  }

  /** `input()`: the next line, or the end of the input, where it raises `EOFError`. */
  function ReadLine(input: seq<string>): (r: Reply<string>)
    ensures r.Answered? <==> input != []
    ensures r.Answered? ==> r.value == input[0] && r.rest == input[1..]
  {
    if input == [] then EndOfInput else Answered(input[0], input[1..])
  }

  /** `_select_option`: prompt until a line reads as the number of an option. */
  method SelectOption(options: seq<string>, input: seq<string>) returns (r: Reply<string>)
    ensures r == SelectOutcome(options, input)
  {
    var i := 0;
    while true
      invariant 0 <= i <= |input|
      invariant SelectOutcome(options, input[i..]) == SelectOutcome(options, input)
      decreases |input| - i
    {
      if i == |input| {
        return EndOfInput;
      }
      var choice := ChoiceOf(|options|, input[i]);
      SelectStep(options, input, i);
      PickedChoice(options, input[i]);
      if choice.Some? {
        return Answered(options[choice.value - 1], input[i + 1..]);
      }
      i := i + 1;
    }
  }

  /** A line picks the option its number names, if it names one. */
  lemma PickedChoice(options: seq<string>, line: string)
    ensures var choice := ChoiceOf(|options|, line);
      Picked(options, line) == if choice.Some? then Some(options[choice.value - 1]) else None
  {
  }

  /** The line at `i` either picks an option or is skipped. */
  lemma SelectStep(options: seq<string>, input: seq<string>, i: nat)
    requires i < |input|
    ensures var picked := Picked(options, input[i]);
      SelectOutcome(options, input[i..]) ==
        if picked.Some? then Answered(picked.value, input[i + 1..])
        else SelectOutcome(options, input[i + 1..])
  {
    HeadAndRest(input, i);
    SelectCons(options, input[i], input[i + 1..]);
  }

  /** `input[i..]` is `input[i]` followed by `input[i + 1..]`. */
  lemma HeadAndRest<T>(input: seq<T>, i: nat)
    requires i < |input|
    ensures input[i..] == [input[i]] + input[i + 1..]
  {
  }

  /** The first line either picks an option or is skipped. */
  lemma SelectCons(options: seq<string>, line: string, rest: seq<string>)
    ensures var picked := Picked(options, line);
      SelectOutcome(options, [line] + rest) ==
        if picked.Some? then Answered(picked.value, rest)
        else SelectOutcome(options, rest)
  {
    ConsTail(line, rest);
  }

  /** Typing the number `k` of an option selects the `k`-th option. */
  lemma SelectTyped(options: seq<string>, k: nat, rest: seq<string>)
    requires 1 <= k <= |options|
    ensures SelectOutcome(options, [ShowNat(k)] + rest) == Answered(options[k - 1], rest)
  {
    ParseShowNat(k);
    SelectCons(options, ShowNat(k), rest);
  }

  /** A line that is not a number, or a number out of range, is skipped. */
  lemma SelectSkipsInvalid(options: seq<string>, line: string, rest: seq<string>)
    requires ParseInt(line).None? || !(1 <= ParseInt(line).value <= |options|)
    ensures SelectOutcome(options, [line] + rest) == SelectOutcome(options, rest)
  {
    assert ([line] + rest)[1..] == rest;
  }
}
