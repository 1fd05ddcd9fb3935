/**
 * The string primitives of Python that docesetup.py relies on: character classes,
 * `lower()`, `strip()`, `strip('"')`, `split()`, `startswith`, `in`, and the
 * division of a text into lines with its inverse `'\n'.join`.
 *
 * Character classes are stated exactly for the characters below U+0100 (Latin-1);
 * the behaviour of Python on other characters is not part of this model.
 */
module Text {

  /** `c.isspace()`; also what `\s`, `strip()` and `split()` treat as whitespace. */
  predicate IsSpace(c: char) {
    (9 <= c as int <= 13) || (0x1c <= c as int <= 0x20) || c as int == 0x85 || c as int == 0xa0
  }

  /** `c.isdigit()`: the ASCII digits and the superscripts one, two and three. */
  predicate IsDigit(c: char) {
    ('0' <= c <= '9') || c as int == 0xb2 || c as int == 0xb3 || c as int == 0xb9
  }

  /** The upper-case letters that `lower()` changes: A-Z and the Latin-1 capitals. */
  predicate IsUpper(c: char) {
    ('A' <= c <= 'Z') || (0xc0 <= c as int <= 0xde && c as int != 0xd7)
  }

  function LowerChar(c: char): char {
    if IsUpper(c) then (c as int + 32) as char else c
  }

  /** `s.lower()`: each capital replaced by its small letter. */
  function Lower(s: string): (r: string)
    ensures |r| == |s|
    ensures forall i :: 0 <= i < |s| ==> r[i] == LowerChar(s[i])
  {
    seq(|s|, i requires 0 <= i < |s| => LowerChar(s[i]))
  }

  /** No capital is left after `lower()`. */
  lemma LowerLeavesNoCapital(s: string)
    ensures forall i :: 0 <= i < |Lower(s)| ==> !IsUpper(Lower(s)[i])
  {
    forall i | 0 <= i < |s| ensures !IsUpper(Lower(s)[i]) {
      var c := s[i];
      assert Lower(s)[i] == LowerChar(c);
    }
  }

  /** Lowering a lowered text changes nothing. */
  lemma LowerIdempotent(s: string)
    ensures Lower(Lower(s)) == Lower(s)
  {
    LowerLeavesNoCapital(s);
    forall i | 0 <= i < |s| ensures Lower(Lower(s))[i] == Lower(s)[i] {
      assert !IsUpper(Lower(s)[i]);
    }
  }

  function TrimStart(s: string): (r: string)
    ensures |r| <= |s| && r == s[|s| - |r|..]
    ensures r != [] ==> !IsSpace(r[0])
    ensures forall i :: 0 <= i < |s| - |r| ==> IsSpace(s[i])
  {
    if s != [] && IsSpace(s[0]) then TrimStart(s[1..]) else s
  }

  function TrimEnd(s: string): (r: string)
    ensures |r| <= |s| && r == s[..|r|]
    ensures r != [] ==> !IsSpace(r[|r| - 1])
    ensures forall i :: |r| <= i < |s| ==> IsSpace(s[i])
  {
    if s != [] && IsSpace(s[|s| - 1]) then TrimEnd(s[..|s| - 1]) else s
  }

  /** `s.strip()`: whitespace removed at both ends. */
  function Strip(s: string): (r: string)
    ensures r != [] ==> !IsSpace(r[0]) && !IsSpace(r[|r| - 1])
  {
    TrimEnd(TrimStart(s))
  }

  function DropLeading(s: string, c: char): (r: string)
    ensures |r| <= |s| && r == s[|s| - |r|..]
    ensures r != [] ==> r[0] != c
    ensures forall i :: 0 <= i < |s| - |r| ==> s[i] == c
  {
    if s != [] && s[0] == c then DropLeading(s[1..], c) else s
  }

  function DropTrailing(s: string, c: char): (r: string)
    ensures |r| <= |s| && r == s[..|r|]
    ensures r != [] ==> r[|r| - 1] != c
    ensures forall i :: |r| <= i < |s| ==> s[i] == c
  {
    if s != [] && s[|s| - 1] == c then DropTrailing(s[..|s| - 1], c) else s
  }

  /**
   * `s.strip('"')`: every double quote removed at both ends, and nothing else.
   */
  function StripQuotes(s: string): (r: string)
    ensures r != [] ==> r[0] != '"' && r[|r| - 1] != '"'
    ensures exists a :: QuotedAt(s, a, r)
  {
    var t := DropLeading(s, '"');
    var r := DropTrailing(t, '"');
    assert QuotedAt(s, |s| - |t|, r);
    r
  }

  /** `s` is `r` at position `a`, with only double quotes before and after it. */
  predicate QuotedAt(s: string, a: int, r: string) {
    0 <= a <= |s| - |r| && r == s[a..a + |r|] &&
    (forall i :: 0 <= i < a ==> s[i] == '"') && (forall i :: a + |r| <= i < |s| ==> s[i] == '"')
  }

  /** `s.startswith(prefix)`. */
  predicate StartsWith(s: string, prefix: string) {
    |prefix| <= |s| && s[..|prefix|] == prefix
  }

  /** `sub in s`. */
  predicate Contains(s: string, sub: string)
    decreases |s|
  {
    StartsWith(s, sub) || (s != [] && Contains(s[1..], sub))
  }

  /** The position of the first `c` in `s`, or `|s|` when there is none. */
  function IndexOf(s: string, c: char): (n: nat)
    ensures n <= |s|
    ensures forall i :: 0 <= i < n ==> s[i] != c
    ensures n < |s| ==> s[n] == c
  {
    if s == [] || s[0] == c then 0 else 1 + IndexOf(s[1..], c)
  }

  /** `s.split('\n')`: the lines of a text, without their terminators. */
  function Lines(s: string): (ls: seq<string>)
    ensures |ls| >= 1
    ensures forall i :: 0 <= i < |ls| ==> '\n' !in ls[i]
    decreases |s|
  {
    var n := IndexOf(s, '\n');
    if n == |s| then [s] else [s[..n]] + Lines(s[n + 1..])
  }

  /** `'\n'.join(ls)`. */
  function Join(ls: seq<string>): string {
    if |ls| == 0 then "" else if |ls| == 1 then ls[0] else ls[0] + "\n" + Join(ls[1..])
  }

  function WordLen(s: string): (n: nat)
    ensures n <= |s|
    ensures forall i :: 0 <= i < n ==> !IsSpace(s[i])
    ensures n < |s| ==> IsSpace(s[n])
  {
    if s == [] || IsSpace(s[0]) then 0 else 1 + WordLen(s[1..])
  }

  /** `s.split()`: the maximal runs of non-whitespace characters, in order. */
  function Words(s: string): seq<string>
    decreases |s|
  {
    var t := TrimStart(s);
    if t == [] then []
    else
      var n := WordLen(t);
      [t[..n]] + Words(t[n..])
  }

  /** Concatenation is associative, stated apart so that proofs about the pieces need not re-derive it. */
  lemma AppendAssoc(a: string, b: string, c: string)
    ensures a + b + c == a + (b + c)
  {
  }

  lemma ConsSplit(s: string)
    requires s != []
    ensures s == [s[0]] + s[1..]
  {
  }

  lemma ConsAppend(a: string, b: string)
    requires a != []
    ensures a + b == [a[0]] + (a[1..] + b)
  {
  }

  lemma JoinTwo(a: string, b: string)
    ensures Join([a, b]) == a + "\n" + b
  {
    assert [a, b][1..] == [b];
  }

  lemma PairOf(r: seq<string>, a: string, b: string)
    requires |r| == 2 && r[0] == a && r[1] == b
    ensures r == [a, b]
  {
  }

  lemma TailAppend(a: string, b: string)
    requires a != []
    ensures (a + b)[0] == a[0] && (a + b)[1..] == a[1..] + b
  {
  }

  /** Dropping the first `m` characters of a line followed by more text. */
  lemma DropLine(l: string, r: string, m: nat)
    requires m <= |l|
    ensures (l + "\n" + r)[m..] == l[m..] + "\n" + r
  {
  }

  /** The first line of a text that has a line end, and the lines after it. */
  lemma LinesCons(s: string, n: nat)
    requires n == IndexOf(s, '\n') && n < |s|
    ensures Lines(s)[0] == s[..n] && Lines(s)[1..] == Lines(s[n + 1..])
  {
    ConsTail(s[..n], Lines(s[n + 1..]));
  }

  lemma AfterFirst(c: char, s: string)
    ensures ([c] + s)[0] == c && ([c] + s)[1..] == s
  {
  }

  /** A text is the part before a line end, the line end, and the part after it. */
  lemma SplitLine(s: string, n: nat)
    requires n < |s| && s[n] == '\n'
    ensures s == s[..n] + "\n" + s[n + 1..]
  {
  }

  lemma ConsLine(x: char, a: string, b: string)
    ensures [x] + (a + "\n" + b) == [x] + a + "\n" + b
  {
  }

  /** The part of `a + b` from position `|a| + k` is the part of `b` from `k`. */
  lemma DropAppend(a: string, b: string, k: nat)
    requires k <= |b|
    ensures (a + b)[|a| + k..] == b[k..]
  {
  }

  lemma TakeDropAppend(a: string, b: string)
    ensures (a + b)[..|a|] == a && (a + b)[|a|..] == b
  {
  }

  /** The first `c` of `a + b` is the one that starts `b`, when `a` has none. */
  lemma {:induction false} IndexOfAt(a: string, b: string, c: char)
    requires c !in a && (b == [] || b[0] == c)
    ensures IndexOf(a + b, c) == |a|
  {
    if a == [] {
      assert a + b == b;
    } else {
      TailAppend(a, b);
      IndexOfAt(a[1..], b, c);
    }
  }

  lemma SeqCons<T>(l: seq<T>)
    requires |l| >= 1
    ensures l == [l[0]] + l[1..]
  {
  }

  lemma SeqAssoc<T>(a: seq<T>, b: seq<T>, c: seq<T>)
    ensures a + b + c == a + (b + c)
  {
  }

  lemma ConsTail<T>(x: T, l: seq<T>)
    ensures ([x] + l)[0] == x && ([x] + l)[1..] == l
  {
  }

  /** The line before the first line end of `l + "\n" + r`, and the text after it. */
  lemma WholeSlice<T>(s: seq<T>)
    ensures s[..|s|] == s && s[|s|..] == [] && s + [] == s
  {
  }
  lemma DropStep<T>(s: seq<T>, i: nat)
    requires i < |s|
    ensures s[i..][0] == s[i] && s[i..][1..] == s[i + 1..]
  {
  }
  lemma TakeLine(l: string, r: string)
    ensures (l + "\n" + r)[..|l|] == l && (l + "\n" + r)[|l| + 1..] == r
  {
  }

  lemma LineAssoc(a: string, b: string, c: string)
    ensures (a + "\n" + b) + "\n" + c == a + "\n" + (b + "\n" + c)
  {
  }

  lemma {:induction false} IndexOfAfter(a: string, c: char, b: string)
    requires c !in a
    ensures IndexOf(a + [c] + b, c) == |a|
  {
    if a != [] {
      assert (a + [c] + b)[1..] == a[1..] + [c] + b;
      IndexOfAfter(a[1..], c, b);
    }
  }

  lemma IndexOfAbsent(s: string, c: char)
    requires c !in s
    ensures IndexOf(s, c) == |s|
  {
  }

  /** Joining the lines of a text gives the text back. */
  lemma {:induction false} JoinLines(s: string)
    ensures Join(Lines(s)) == s
    decreases |s|
  {
    var n := IndexOf(s, '\n');
    if n < |s| {
      JoinLines(s[n + 1..]);
      LinesCons(s, n);
      SplitLine(s, n);
    }
  }

  /** Splitting a join of newline-free lines gives the lines back. */
  lemma {:induction false} LinesJoin(ls: seq<string>)
    requires |ls| >= 1
    requires forall i :: 0 <= i < |ls| ==> '\n' !in ls[i]
    ensures Lines(Join(ls)) == ls
  {
    if |ls| == 1 {
      IndexOfAbsent(ls[0], '\n');
    } else {
      var j := Join(ls[1..]);
      IndexOfAfter(ls[0], '\n', j);
      TakeLine(ls[0], j);
      LinesJoin(ls[1..]);
      SeqCons(ls);
    }
  }

  /** The lines of `a + "\n" + b` are the lines of `a` followed by those of `b`. */
  lemma {:induction false} LinesAppend(a: string, b: string)
    ensures Lines(a + "\n" + b) == Lines(a) + Lines(b)
    decreases |a|
  {
    var n := IndexOf(a, '\n');
    if n == |a| {
      IndexOfAfter(a, '\n', b);
      TakeLine(a, b);
    } else {
      var a1 := a[..n];
      var a2 := a[n + 1..];
      SplitLine(a, n);
      LineAssoc(a1, a2, b);
      IndexOfAfter(a1, '\n', a2 + "\n" + b);
      TakeLine(a1, a2 + "\n" + b);
      LinesAppend(a2, b);
      SeqAssoc([a1], Lines(a2), Lines(b));
    }
  }

  /** A text with no whitespace at either end is its own `strip()`. */
  lemma StripUnchanged(s: string)
    requires s != [] && !IsSpace(s[0]) && !IsSpace(s[|s| - 1])
    ensures Strip(s) == s
  {
    assert TrimStart(s) == s;
  }

  /** A character that is not whitespace survives `lstrip()`, at its position less the spaces dropped. */
  lemma TrimStartKeeps(s: string, i: nat)
    requires i < |s| && !IsSpace(s[i])
    ensures |s| - |TrimStart(s)| <= i && TrimStart(s)[i - (|s| - |TrimStart(s)|)] == s[i]
  {
    var k := |s| - |TrimStart(s)|;
    assert k <= i;
  }

  /** A character that is not whitespace survives `rstrip()` at its position. */
  lemma TrimEndKeeps(s: string, i: nat)
    requires i < |s| && !IsSpace(s[i])
    ensures i < |TrimEnd(s)| && TrimEnd(s)[i] == s[i]
  {
  }

  /** `strip()` keeps every character that is not whitespace. */
  lemma StripKeeps(s: string, c: char)
    requires c in s && !IsSpace(c)
    ensures c in Strip(s)
  {
    var i :| 0 <= i < |s| && s[i] == c;
    TrimStartKeeps(s, i);
    var t := TrimStart(s);
    var j := i - (|s| - |t|);
    TrimEndKeeps(t, j);
    assert Strip(s)[j] == c;
  }

  lemma {:induction false} ContainsAppendLeft(a: string, b: string, x: string)
    requires Contains(a, x)
    ensures Contains(a + b, x)
    decreases |a|
  {
    if StartsWith(a, x) {
      assert (a + b)[..|x|] == a[..|x|];
    } else {
      assert (a + b)[1..] == a[1..] + b;
      ContainsAppendLeft(a[1..], b, x);
    }
  }

  lemma {:induction false} ContainsAppendRight(a: string, b: string, x: string)
    requires Contains(b, x)
    ensures Contains(a + b, x)
    decreases |a|
  {
    if a != [] {
      assert (a + b)[1..] == a[1..] + b;
      ContainsAppendRight(a[1..], b, x);
    } else {
      assert a + b == b;
    }
  }

  /** An occurrence of a text without newline lies on one side of a newline. */
  lemma {:induction false} ContainsAcrossNewline(a: string, b: string, x: string)
    requires x != [] && '\n' !in x
    requires Contains(a + "\n" + b, x)
    ensures Contains(a, x) || Contains(b, x)
    decreases |a|
  {
    var s := a + "\n" + b;
    assert |a| < |x| <= |s| ==> s[..|x|][|a|] == '\n';
    if StartsWith(s, x) {
      assert s[..|x|] == a[..|x|];
    } else if a == [] {
      assert s[1..] == b;
    } else {
      assert s[1..] == a[1..] + "\n" + b;
      ContainsAcrossNewline(a[1..], b, x);
    }
  }

  /** A text that contains `p + x` contains `x`. */
  lemma {:induction false} ContainsTail(s: string, p: string, x: string)
    requires Contains(s, p + x)
    ensures Contains(s, x)
    decreases |s|
  {
    if StartsWith(s, p + x) {
      assert s[..|p| + |x|] == p + x;
      assert s[|p|..][..|x|] == s[..|p| + |x|][|p|..];
      ContainsSuffix(s, |p|, x);
    } else {
      ContainsTail(s[1..], p, x);
    }
  }

  lemma {:induction false} ContainsSuffix(s: string, k: nat, x: string)
    requires k <= |s| && Contains(s[k..], x)
    ensures Contains(s, x)
    decreases k
  {
    if k > 0 {
      assert s[1..][k - 1..] == s[k..];
      ContainsSuffix(s[1..], k - 1, x);
    }
  }

  /** One step of `split()`: the first word, then the words of what follows it. */
  lemma WordsStep(s: string)
    requires TrimStart(s) != []
    ensures var t := TrimStart(s);
      Words(s) == [t[..WordLen(t)]] + Words(t[WordLen(t)..])
  {
  }

  lemma WordsOfNothing()
    ensures Words([]) == []
  {
  }

  /** A word of `split()`: a non-empty text without whitespace. */
  predicate IsWord(w: string) {
    w != [] && forall i :: 0 <= i < |w| ==> !IsSpace(w[i])
  }

  /** `split()` yields only words: none is empty and none holds whitespace. */
  lemma {:induction false} WordsAreWords(s: string)
    ensures forall k :: 0 <= k < |Words(s)| ==> IsWord(Words(s)[k])
    decreases |s|
  {
    var t := TrimStart(s);
    if t != [] {
      var n := WordLen(t);
      WordsStep(s);
      WordsAreWords(t[n..]);
      FirstWord(t);
      AllWordsCons(t[..n], Words(t[n..]));
    }
  }

  /** The first run of a text without leading whitespace is a word. */
  lemma FirstWord(t: string)
    requires t != [] && !IsSpace(t[0])
    ensures IsWord(t[..WordLen(t)])
  {
  }

  lemma AllWordsCons(w: string, tail: seq<string>)
    requires IsWord(w) && forall k :: 0 <= k < |tail| ==> IsWord(tail[k])
    ensures forall k :: 0 <= k < |[w] + tail| ==> IsWord(([w] + tail)[k])
  {
  }

  /** `' '.join(ws)`. */
  function SpaceJoin(ws: seq<string>): string {
    if |ws| == 0 then "" else if |ws| == 1 then ws[0] else ws[0] + " " + SpaceJoin(ws[1..])
  }

  /** A word followed by whitespace or nothing: the word is the first run. */
  lemma {:induction false} WordLenOfWord(w: string, rest: string)
    requires IsWord(w) && (rest == [] || IsSpace(rest[0]))
    ensures WordLen(w + rest) == |w|
    decreases |w|
  {
    AppendAssoc([w[0]], w[1..], rest);
    assert w == [w[0]] + w[1..];
    AfterFirst(w[0], w[1..] + rest);
    if |w| > 1 {
      WordLenOfWord(w[1..], rest);
    }
  }

  /** A space in front changes nothing for `split()`. */
  lemma WordsAfterSpace(s: string)
    ensures Words(" " + s) == Words(s)
  {
    assert " " + s == [' '] + s;
    TrimStartSpace(' ', s);
  }

  lemma TrimStartSpace(c: char, s: string)
    requires IsSpace(c)
    ensures TrimStart([c] + s) == TrimStart(s)
  {
    var u := [c] + s;
    AfterFirst(c, s);
    assert TrimStart(u) == TrimStart(u[1..]);
  }

  /** A word followed by whitespace or nothing splits into that word and the words of the rest. */
  lemma WordsOfWordThen(w: string, rest: string)
    requires IsWord(w) && (rest == [] || IsSpace(rest[0]))
    ensures Words(w + rest) == [w] + Words(rest)
  {
    var t := w + rest;
    WordLenOfWord(w, rest);
    assert TrimStart(t) == t;
    WordsStep(t);
    assert t[..|w|] == w && t[|w|..] == rest;
  }

  /** `' '.join` then `split()` gives the words back: `split()` keeps the words and their order. */
  lemma {:induction false} WordsOfSpaceJoin(ws: seq<string>)
    requires forall k :: 0 <= k < |ws| ==> IsWord(ws[k])
    ensures Words(SpaceJoin(ws)) == ws
  {
    if |ws| == 0 {
      WordsOfNothing();
    } else if |ws| == 1 {
      WordsOfOne(ws[0]);
      assert ws == [ws[0]];
    } else {
      var tail := ws[1..];
      assert forall k :: 0 <= k < |tail| ==> IsWord(tail[k]) by {
        forall k | 0 <= k < |tail| ensures IsWord(tail[k]) {
          assert tail[k] == ws[k + 1];
        }
      }
      WordsOfSpaceJoin(tail);
      WordsOfJoinStep(ws[0], tail);
      FirstAndRest(ws);
    }
  }

  lemma FirstAndRest<T>(s: seq<T>)
    requires s != []
    ensures s == [s[0]] + s[1..]
  {
  }

  /** A single word splits into itself. */
  lemma WordsOfOne(w: string)
    requires IsWord(w)
    ensures Words(SpaceJoin([w])) == [w]
  {
    WordsOfWordThen(w, "");
    WordsOfNothing();
    WholeSlice(w);
  }

  /** One step of the round trip: the first word, then the words of the rest. */
  lemma WordsOfJoinStep(w: string, tail: seq<string>)
    requires IsWord(w) && |tail| > 0
    ensures Words(SpaceJoin([w] + tail)) == [w] + Words(SpaceJoin(tail))
  {
    var j := SpaceJoin(tail);
    ConsTail(w, tail);
    assert SpaceJoin([w] + tail) == w + " " + j;
    AppendAssoc(w, " ", j);
    WordsOfWordThen(w, " " + j);
    WordsAfterSpace(j);
  }

  /** A text contains only texts no longer than itself. */
  lemma {:induction false} ContainsShorter(s: string, x: string)
    requires Contains(s, x)
    ensures |x| <= |s|
    decreases |s|
  {
    if !StartsWith(s, x) {
      ContainsShorter(s[1..], x);
    }
  }

  /** The first character of an occurrence is a character of the text. */
  lemma {:induction false} ContainsFirst(s: string, x: string)
    requires x != []
    ensures Contains(s, x) ==> x[0] in s
    decreases |s|
  {
    if StartsWith(s, x) {
      assert s[0] == x[0];
    } else if s != [] {
      ContainsFirst(s[1..], x);
    }
  }

  /** A newline-free text occurs in a join of lines only inside one of the lines. */
  lemma {:induction false} ContainsInJoin(ls: seq<string>, x: string)
    requires x != [] && '\n' !in x
    requires Contains(Join(ls), x)
    ensures exists i :: 0 <= i < |ls| && Contains(ls[i], x)
  {
    if |ls| == 0 {
      ContainsShorter(Join(ls), x);
    } else if |ls| > 1 {
      ContainsAcrossNewline(ls[0], Join(ls[1..]), x);
      if !Contains(ls[0], x) {
        ContainsInJoin(ls[1..], x);
        var i :| 0 <= i < |ls[1..]| && Contains(ls[1..][i], x);
        assert Contains(ls[i + 1], x);
      }
    }
  }

  /** What one line contains, the join of the lines contains. */
  lemma {:induction false} JoinContains(ls: seq<string>, i: nat, x: string)
    requires i < |ls| && Contains(ls[i], x)
    ensures Contains(Join(ls), x)
  {
    if |ls| > 1 {
      var j := Join(ls[1..]);
      assert Join(ls) == ls[0] + ("\n" + j);
      if i == 0 {
        ContainsAppendLeft(ls[0], "\n" + j, x);
      } else {
        JoinContains(ls[1..], i - 1, x);
        assert Join(ls) == (ls[0] + "\n") + j;
        ContainsAppendRight(ls[0] + "\n", j, x);
      }
    }
  }
}
