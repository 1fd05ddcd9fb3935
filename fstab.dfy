/**
 * The swap step of `create_swap` (docesetup.py:302-376): the shell commands it
 * issues and its edit of /etc/fstab. The edit appears twice in the source, once
 * per console style, with the same text; it is modelled once.
 */
module Fstab {
  import opened Text
  import opened Files

  const FstabPath := "/etc/fstab"
  const SwapEntry := "/swapfile none swap sw 0 0"
  /** The sizes offered for the swap file, in menu order. */
  const Sizes: seq<string> := ["2G", "4G", "8G", "16G", "32G"]

  /** The line a line of fstab becomes under the rewrite. */
  function FixLine(line: string): string {
    if Contains(line, "swapfile") then SwapEntry else line
  }

  function FixLines(ls: seq<string>): (r: seq<string>)
    ensures |r| == |ls| && forall i :: 0 <= i < |ls| ==> r[i] == FixLine(ls[i])
  {
    seq(|ls|, i requires 0 <= i < |ls| => FixLine(ls[i]))
  }

  /**
   * `re.sub(r'.*swapfile.*', entry, s)`: scanning from the left, wherever the
   * rest of the current line contains `swapfile` the text up to the end of the
   * line is replaced; otherwise one character is copied. `.` does not match a
   * newline.
   */
  function SubSwap(s: string): string
    decreases |s|
  {
    if s == [] then []
    else
      var n := IndexOf(s, '\n');
      if Contains(s[..n], "swapfile") then
        ContainsShorter(s[..n], "swapfile");
        SwapEntry + SubSwap(s[n..])
      else [s[0]] + SubSwap(s[1..])
  }

  /** A line without `swapfile`, up to a newline or the end, is copied as it is. */
  lemma {:induction false} SubSwapCopies(line: string, rest: string)
    requires '\n' !in line && !Contains(line, "swapfile")
    requires rest == [] || rest[0] == '\n'
    ensures SubSwap(line + rest) == line + SubSwap(rest)
  {
    if line != [] {
      IndexOfAt(line, rest, '\n');
      TakeDropAppend(line, rest);
      TailAppend(line, rest);
      SubSwapCopies(line[1..], rest);
      ConsAppend(line, SubSwap(rest));
    }
  }

  lemma SubSwapNewline(r: string)
    ensures SubSwap("\n" + r) == "\n" + SubSwap(r)
  {
    AfterFirst('\n', r);
    assert IndexOf("\n" + r, '\n') == 0;
  }

  /** A last line (no newline after it) becomes its fixed form. */
  lemma SubSwapLastLine(s: string)
    requires '\n' !in s
    ensures SubSwap(s) == FixLine(s)
  {
    IndexOfAbsent(s, '\n');
    if Contains(s, "swapfile") {
      ContainsShorter(s, "swapfile");
      assert s[..|s|] == s && s[|s|..] == [];
    } else {
      SubSwapCopies(s, []);
      assert s + [] == s;
    }
  }

  /** A line followed by a newline becomes its fixed form, followed by the newline. */
  lemma SubSwapFirstLine(line: string, r: string)
    requires '\n' !in line
    ensures SubSwap(line + "\n" + r) == FixLine(line) + "\n" + SubSwap(r)
  {
    var nr := "\n" + r;
    AppendAssoc(line, "\n", r);
    AppendAssoc(FixLine(line), "\n", SubSwap(r));
    SubSwapNewline(r);
    IndexOfAt(line, nr, '\n');
    if Contains(line, "swapfile") {
      ContainsShorter(line, "swapfile");
      TakeDropAppend(line, nr);
    } else {
      SubSwapCopies(line, nr);
    }
  }

  lemma JoinFixedCons(ls: seq<string>)
    requires |ls| >= 2
    ensures Join(FixLines(ls)) == FixLine(ls[0]) + "\n" + Join(FixLines(ls[1..]))
  {
    assert FixLines(ls)[1..] == FixLines(ls[1..]);
  }

  /** The substitution replaces exactly the lines that contain `swapfile`. */
  lemma {:induction false} SubSwapLinewise(s: string)
    ensures SubSwap(s) == Join(FixLines(Lines(s)))
    decreases |s|
  {
    var n := IndexOf(s, '\n');
    if n == |s| {
      SubSwapLastLine(s);
    } else {
      SplitLine(s, n);
      LinesCons(s, n);
      SubSwapLinewise(s[n + 1..]);
      SubSwapFirstLine(s[..n], s[n + 1..]);
      JoinFixedCons(Lines(s));
    }
  }

  lemma EntryHasNoNewline()
    ensures '\n' !in SwapEntry
  {
  }

  lemma FixLinesNoNewline(ls: seq<string>)
    requires forall i :: 0 <= i < |ls| ==> '\n' !in ls[i]
    ensures forall i :: 0 <= i < |ls| ==> '\n' !in FixLines(ls)[i]
  {
    EntryHasNoNewline();
  }

  /** The lines of the rewritten text: each line with `swapfile` is the swap entry, every other line is kept. */
  lemma SubSwapLines(s: string)
    ensures Lines(SubSwap(s)) == FixLines(Lines(s))
  {
    SubSwapLinewise(s);
    FixLinesNoNewline(Lines(s));
    LinesJoin(FixLines(Lines(s)));
  }

  /**
   * The edit of /etc/fstab: nothing when it is absent; the rewrite when it
   * mentions `/swapfile`; otherwise the entry appended on a line of its own.
   */
  function UpdateFstab(fs: FileSystem): (r: FileSystem)
    ensures FstabPath !in fs ==> r == fs
    ensures r.Keys == fs.Keys && forall p :: p in fs && p != FstabPath ==> r[p] == fs[p]
  {
    if FstabPath !in fs then fs
    else
      var content := fs[FstabPath];
      if Contains(content, "/swapfile") then fs[FstabPath := SubSwap(content)]
      else fs[FstabPath := content + "\n" + SwapEntry + "\n"]
  }

  /** With `/swapfile` present, the lines with `swapfile` become the entry and the others stay. */
  lemma UpdateFstabRewrites(fs: FileSystem)
    requires FstabPath in fs && Contains(fs[FstabPath], "/swapfile")
    ensures var before := Lines(fs[FstabPath]);
      var after := Lines(UpdateFstab(fs)[FstabPath]);
      |after| == |before| &&
      forall i :: 0 <= i < |before| ==>
        after[i] == if Contains(before[i], "swapfile") then SwapEntry else before[i]
  {
    SubSwapLines(fs[FstabPath]);
  }

  lemma LinesOfLastLine(line: string)
    requires '\n' !in line
    ensures Lines(line + "\n") == [line, ""]
  {
    LinesAppend(line, "");
    IndexOfAbsent(line, '\n');
    assert line + "\n" + "" == line + "\n";
  }

  /** The lines of a text with the entry appended on a line of its own. */
  lemma LinesWithEntry(c: string)
    ensures Lines(c + "\n" + SwapEntry + "\n") == Lines(c) + [SwapEntry, ""]
  {
    LinesAppend(c, SwapEntry + "\n");
    EntryHasNoNewline();
    LinesOfLastLine(SwapEntry);
    AppendAssoc(c + "\n", SwapEntry, "\n");
  }

  /** Without `/swapfile`, the old lines are kept and the entry follows them, then an empty last line. */
  lemma UpdateFstabAppends(fs: FileSystem)
    requires FstabPath in fs && !Contains(fs[FstabPath], "/swapfile")
    ensures Lines(UpdateFstab(fs)[FstabPath]) == Lines(fs[FstabPath]) + [SwapEntry, ""]
  {
    LinesWithEntry(fs[FstabPath]);
  }

  lemma EntryMentionsSwapfile()
    ensures Contains(SwapEntry, "/swapfile") && Contains(SwapEntry, "swapfile")
  {
    assert StartsWith(SwapEntry, "/swapfile");
    assert StartsWith(SwapEntry[1..], "swapfile");
  }

  /** A text is left as it is when every line with `swapfile` is already the entry. */
  lemma SubSwapFixed(s: string)
    requires forall i :: 0 <= i < |Lines(s)| ==> Contains(Lines(s)[i], "swapfile") ==> Lines(s)[i] == SwapEntry
    ensures SubSwap(s) == s
  {
    SubSwapLinewise(s);
    assert FixLines(Lines(s)) == Lines(s);
    JoinLines(s);
  }

  /** The rewritten text still mentions `/swapfile`. */
  lemma SubSwapMentions(s: string)
    requires Contains(s, "/swapfile")
    ensures Contains(SubSwap(s), "/swapfile")
  {
    var ls := Lines(s);
    JoinLines(s);
    ContainsInJoin(ls, "/swapfile");
    var i :| 0 <= i < |ls| && Contains(ls[i], "/swapfile");
    assert "/swapfile" == "/" + "swapfile";
    ContainsTail(ls[i], "/", "swapfile");
    EntryMentionsSwapfile();
    SubSwapLinewise(s);
    JoinContains(FixLines(ls), i, "/swapfile");
  }

  /** No line of a text without `swapfile` contains it. */
  lemma NoLineMentions(c: string)
    requires !Contains(c, "swapfile")
    ensures forall i :: 0 <= i < |Lines(c)| ==> !Contains(Lines(c)[i], "swapfile")
  {
    var ls := Lines(c);
    forall i | 0 <= i < |ls|
      ensures !Contains(ls[i], "swapfile")
    {
      if Contains(ls[i], "swapfile") {
        JoinContains(ls, i, "swapfile");
        JoinLines(c);
      }
    }
  }

  lemma AppendedMentions(c: string)
    ensures Contains(c + "\n" + SwapEntry + "\n", "/swapfile")
  {
    EntryMentionsSwapfile();
    ContainsAppendRight(c + "\n", SwapEntry, "/swapfile");
    ContainsAppendLeft((c + "\n") + SwapEntry, "\n", "/swapfile");
  }

  /** The text the append leaves mentions `/swapfile`, and the rewrite leaves it alone. */
  lemma AppendedEntryFixed(c: string)
    requires !Contains(c, "swapfile")
    ensures var once := c + "\n" + SwapEntry + "\n";
      Contains(once, "/swapfile") && SubSwap(once) == once
  {
    var once := c + "\n" + SwapEntry + "\n";
    AppendedMentions(c);
    NoLineMentions(c);
    LinesWithEntry(c);
    assert !Contains("", "swapfile");
    var ls := Lines(once);
    assert forall i :: 0 <= i < |ls| ==> Contains(ls[i], "swapfile") ==> ls[i] == SwapEntry by {
      assert forall i :: |Lines(c)| <= i < |ls| ==> ls[i] == SwapEntry || ls[i] == "";
    }
    SubSwapFixed(once);
  }

  /**
   * Running the edit twice gives what running it once gives, when fstab
   * mentions `/swapfile` or does not mention `swapfile` at all.
   */
  lemma UpdateFstabIdempotent(fs: FileSystem)
    requires FstabPath in fs ==> Contains(fs[FstabPath], "/swapfile") || !Contains(fs[FstabPath], "swapfile")
    ensures UpdateFstab(UpdateFstab(fs)) == UpdateFstab(fs)
  {
    if FstabPath in fs {
      var c := fs[FstabPath];
      if Contains(c, "/swapfile") {
        EntryMentionsSwapfile();
        SubSwapMentions(c);
        SubSwapLines(c);
        SubSwapFixed(SubSwap(c));
      } else {
        AppendedEntryFixed(c);
      }
    }
  }
}
