/** `Misc`: `markdownify`, two tag rewrites done one after the other. Each rewrite is a
    left-to-right, non-overlapping scan, as `re.sub` performs it, of
    `\[tag\]([a-zA-Z0-9.!?:\-]+)?\[/\]`. */
module Misc {
  import opened Results
  import opened PyStr

  const Bold: string := "[bold]"
  const Italics: string := "[italics]"
  const Close: string := "[/]"

  /** A character of the class `[a-zA-Z0-9.!?:\-]`. */
  predicate IsWordChar(c: char) {
    'a' <= c <= 'z' || 'A' <= c <= 'Z' || '0' <= c <= '9' || c == '.' || c == '!' || c == '?' || c == ':' || c == '-'
  }

  predicate IsWord(w: string) {
    forall i :: 0 <= i < |w| ==> IsWordChar(w[i])
  }

  /** An opening tag: a `[`, then a character other than `/`, and no further `[`. */
  predicate TagShape(tag: string) {
    |tag| >= 2 && tag[0] == '[' && tag[1] != '/' && forall i :: 1 <= i < |tag| ==> tag[i] != '['
  }

  /** The greedy `+`: the length of the longest run of word characters at the start of `s`. */
  function WordRun(s: string): (n: nat)
    ensures n <= |s| && IsWord(s[..n]) && (n < |s| ==> !IsWordChar(s[n]))
  {
    if |s| == 0 || !IsWordChar(s[0]) then 0
    else
      var n := 1 + WordRun(s[1..]);
      assert s[..n] == [s[0]] + s[1..][..n - 1];
      n
  }

  /** Whether the pattern matches at the start of `s`: the length of the word between the tag
      and `[/]` when it does. As the word class holds neither `[` nor `/`, the greedy run is the
      only candidate and no backtracking can find another match. */
  function MatchTag(s: string, tag: string): (r: Option<nat>)
    ensures r.Some? ==> |tag| + r.value + |Close| <= |s|
  {
    if !StartsWith(s, tag) then None
    else
      var n := WordRun(s[|tag|..]);
      if StartsWith(s[|tag| + n..], Close) then Some(n) else None
  }

  /** A match splits the string into the tag, a word and `[/]`, followed by the rest. */
  lemma MatchTagSplit(s: string, tag: string)
    requires MatchTag(s, tag).Some?
    ensures var k := |tag| + MatchTag(s, tag).value;
      IsWord(s[|tag|..k]) && s == tag + s[|tag|..k] + Close + s[k + |Close|..]
  {
    var n := MatchTag(s, tag).value;
    var k := |tag| + n;
    assert s[|tag|..k] == s[|tag|..][..n];
    assert s == s[..|tag|] + s[|tag|..k] + s[k..k + |Close|] + s[k + |Close|..];
  }

  /** `re.sub(pattern, mark + r"\1" + mark, s)`: every match, from left to right and without
      overlap, is replaced by its word between two marks; an absent word gives two marks. */
  function SubTag(s: string, tag: string, mark: string): string
    decreases |s|, 1
  {
    if |s| == 0 then ""
    else
      match MatchTag(s, tag)
      case Some(n) => ReplaceMatch(s, tag, mark, n)
      case None => [s[0]] + SubTag(s[1..], tag, mark)
  }

  /** A match of word length `n` at the start of `s`: its word between two marks, and the scan
      goes on after the match. */
  function ReplaceMatch(s: string, tag: string, mark: string, n: nat): string
    requires |tag| + n + |Close| <= |s|
    decreases |s|, 0
  {
    mark + s[|tag|..|tag| + n] + mark + SubTag(s[|tag| + n + |Close|..], tag, mark)
  }

  /** `markdownify(string)`: the bold rewrite first, then the italics rewrite of its output. */
  function Markdownify(s: string): string {
    SubTag(SubTag(s, Bold, "**"), Italics, "_")
  }

  /** A word followed by anything that does not start with a word character: the greedy run is
      exactly the word. */
  lemma {:induction false} WordRunOf(w: string, t: string)
    requires IsWord(w) && (|t| > 0 ==> !IsWordChar(t[0]))
    ensures WordRun(w + t) == |w|
  {
    if |w| > 0 {
      assert (w + t)[1..] == w[1..] + t;
      WordRunOf(w[1..], t);
    }
  }

  /** The pattern matches a tag, a word and `[/]`, with that word. */
  lemma MatchTagOf(tag: string, w: string, rest: string)
    requires IsWord(w)
    ensures MatchTag(tag + w + Close + rest, tag) == Some(|w|)
  {
    var s := tag + w + Close + rest;
    assert s[..|tag|] == tag;
    assert s[|tag|..] == w + (Close + rest);
    WordRunOf(w, Close + rest);
    assert s[|tag| + |w|..] == Close + rest;
  }

  /** A string in which the tag does not occur is left as it is. */
  lemma {:induction false} SubTagTagFree(s: string, tag: string, mark: string)
    requires !Contains(s, tag)
    ensures SubTag(s, tag, mark) == s
    decreases |s|
  {
    if |s| > 0 {
      assert !OccursAt(s, tag, 0);
      assert MatchTag(s, tag) == None;
      ContainsTail(s, tag);
      SubTagTagFree(s[1..], tag, mark);
      assert s == [s[0]] + s[1..];
    }
  }

  lemma ContainsTail(s: string, tag: string)
    requires |s| > 0
    ensures Contains(s[1..], tag) ==> Contains(s, tag)
  {
    if Contains(s[1..], tag) {
      var i :| OccursAt(s[1..], tag, i);
      assert s[i + 1..i + 1 + |tag|] == s[1..][i..i + |tag|];
      assert OccursAt(s, tag, i + 1);
    }
  }

  /** A prefix without `[` cannot hold the start of a match and is copied through. */
  lemma {:induction false} SubTagPlain(p: string, t: string, tag: string, mark: string)
    requires |tag| >= 1 && tag[0] == '[' && '[' !in p
    ensures SubTag(p + t, tag, mark) == p + SubTag(t, tag, mark)
    decreases |p|
  {
    if |p| > 0 {
      SkipPlainChar(p, t, tag, mark);
      SubTagPlain(p[1..], t, tag, mark);
      assert p == [p[0]] + p[1..];
    } else {
      assert p + t == t;
    }
  }

  lemma SkipPlainChar(p: string, t: string, tag: string, mark: string)
    requires |tag| >= 1 && tag[0] == '[' && |p| > 0 && '[' !in p
    ensures SubTag(p + t, tag, mark) == [p[0]] + SubTag(p[1..] + t, tag, mark)
    ensures '[' !in p[1..]
  {
    var s := p + t;
    assert s[0] == p[0] && p[0] in p;
    NoMatchAt(s, tag);
    SubTagSkip(s, tag, mark);
    assert s[1..] == p[1..] + t;
    assert forall c :: c in p[1..] ==> c in p;
  }

  /** A string that does not start with `[` holds no match at its start. */
  lemma NoMatchAt(s: string, tag: string)
    requires |s| > 0 && |tag| >= 1 && tag[0] == '[' && s[0] != '['
    ensures MatchTag(s, tag) == None
  {
    assert !StartsWith(s, tag) by {
      if |tag| <= |s| {
        assert s[..|tag|][0] != tag[0];
      }
    }
  }

  /** Where no match starts, the first character is copied and the scan moves on by one. */
  lemma SubTagSkip(s: string, tag: string, mark: string)
    requires |s| > 0 && MatchTag(s, tag) == None
    ensures SubTag(s, tag, mark) == [s[0]] + SubTag(s[1..], tag, mark)
  {
  }

  /** A match is replaced by its word between two marks, and the scan goes on after it. */
  lemma SubTagMatch(w: string, rest: string, tag: string, mark: string)
    requires IsWord(w)
    ensures SubTag(tag + w + Close + rest, tag, mark) == mark + w + mark + SubTag(rest, tag, mark)
  {
    var s := tag + w + Close + rest;
    MatchTagOf(tag, w, rest);
    MatchSlices(tag, w, rest);
    SubTagReplace(s, tag, mark, w, rest);
  }

  lemma SubTagReplace(s: string, tag: string, mark: string, w: string, rest: string)
    requires MatchTag(s, tag) == Some(|w|)
    requires |tag| + |w| + |Close| <= |s| && s[|tag|..|tag| + |w|] == w && s[|tag| + |w| + |Close|..] == rest
    ensures SubTag(s, tag, mark) == mark + w + mark + SubTag(rest, tag, mark)
  {
    SubTagAt(s, tag, mark, |w|);
  }

  lemma MatchSlices(tag: string, w: string, rest: string)
    ensures var s := tag + w + Close + rest;
      s[|tag|..|tag| + |w|] == w && s[|tag| + |w| + |Close|..] == rest
  {
  }

  /** Where a match starts, its word goes between two marks and the scan goes on after it. */
  lemma SubTagAt(s: string, tag: string, mark: string, n: nat)
    requires |s| > 0 && MatchTag(s, tag) == Some(n)
    ensures |tag| + n + |Close| <= |s|
    ensures SubTag(s, tag, mark) == mark + s[|tag|..|tag| + n] + mark + SubTag(s[|tag| + n + |Close|..], tag, mark)
  {
  }

  /** Text without `[` followed by a closing `[/]` is copied through. */
  lemma SubTagTail(u: string, tag: string, mark: string)
    requires TagShape(tag) && '[' !in u
    ensures SubTag(u + Close, tag, mark) == u + Close
  {
    SubTagPlain(u, Close, tag, mark);
    assert !StartsWith(Close, tag) by {
      assert |tag| <= |Close| ==> Close[..|tag|][1] != tag[1];
    }
    assert MatchTag(Close, tag) == None;
    assert Close[1..] == "/]" + "";
    SubTagPlain("/]", "", tag, mark);
    assert SubTag(Close, tag, mark) == Close;
  }

  /** A string that starts with `[` but not with the tag, and has no further `[` before a
      closing `[/]`, is copied through. */
  lemma SubTagNoOpening(s: string, tag: string, mark: string)
    requires TagShape(tag) && |s| > |Close| && s[0] == '[' && !StartsWith(s, tag)
    requires s[|s| - |Close|..] == Close && '[' !in s[1..|s| - |Close|]
    ensures SubTag(s, tag, mark) == s
  {
    assert MatchTag(s, tag) == None;
    var u := s[1..|s| - |Close|];
    assert s[1..] == u + Close;
    SubTagTail(u, tag, mark);
    assert s == [s[0]] + s[1..];
  }

  /** The greedy run stops at or before the first character outside the word class. */
  lemma {:induction false} WordRunBound(s: string, i: nat)
    requires i < |s| && !IsWordChar(s[i])
    ensures WordRun(s) <= i
    decreases i
  {
    if i > 0 && IsWordChar(s[0]) {
      assert s[1..][i - 1] == s[i];
      WordRunBound(s[1..], i - 1);
    }
  }

  /** With a character outside the word class in its content, and no `[` there, the tag does
      not start a match. */
  lemma UntouchedNoMatch(w: string, tag: string)
    requires TagShape(tag) && !IsWord(w) && '[' !in w
    ensures MatchTag(tag + w + Close, tag) == None
  {
    var s := tag + w + Close;
    var x := s[|tag|..];
    assert s[..|tag|] == tag;
    assert x == w + Close;
    var i :| 0 <= i < |w| && !IsWordChar(w[i]);
    assert x[i] == w[i];
    WordRunBound(x, i);
    var n := WordRun(x);
    assert s[|tag| + n] == w[n] && w[n] in w;
    assert !StartsWith(s[|tag| + n..], Close) by {
      assert s[|tag| + n..][0] == w[n];
    }
  }

  /** A tag without its `[`, followed by text without `[`, holds no `[`. */
  lemma TagTailPlain(tag: string, w: string)
    requires TagShape(tag) && '[' !in w
    ensures '[' !in tag[1..] + w
  {
    var u := tag[1..] + w;
    assert forall i :: 0 <= i < |u| ==> u[i] == (if i < |tag| - 1 then tag[i + 1] else w[i - (|tag| - 1)]);
  }

  /** With a character outside the word class in its content, and no `[` there, the tag is left
      untouched. */
  lemma SubTagUntouched(w: string, tag: string, mark: string)
    requires TagShape(tag) && !IsWord(w) && '[' !in w
    ensures SubTag(tag + w + Close, tag, mark) == tag + w + Close
  {
    var s := tag + w + Close;
    var u := tag[1..] + w;
    UntouchedNoMatch(w, tag);
    TagTailPlain(tag, w);
    SubTagSkip(s, tag, mark);
    assert s[1..] == u + Close;
    SubTagTail(u, tag, mark);
    assert s == [s[0]] + s[1..];
  }

  /** One tag, content without `[` and `[/]` are left untouched by the rewrite of a different
      tag. */
  lemma OtherTagUntouched(other: string, w: string, tag: string, mark: string)
    requires TagShape(tag) && TagShape(other) && other[1] != tag[1] && '[' !in w
    ensures SubTag(other + w + Close, tag, mark) == other + w + Close
  {
    var s := other + w + Close;
    assert s[1] == other[1];
    var u := s[1..|s| - |Close|];
    assert u == other[1..] + w;
    TagTailPlain(other, w);
    SubTagNoOpening(s, tag, mark);
  }

  /** A word has no `[` in it. */
  lemma WordHasNoBracket(w: string)
    requires IsWord(w)
    ensures '[' !in w
  {
    assert !IsWordChar('[');
  }

  /** A word between two marks without `[` holds no `[`. */
  lemma MarkedWord(w: string, mark: string)
    requires IsWord(w) && '[' !in mark
    ensures '[' !in mark + w + mark
  {
    WordHasNoBracket(w);
    var p := mark + w + mark;
    assert forall i :: 0 <= i < |p| ==> p[i] in mark || p[i] in w;
  }

  /** Text without `[` is left as it is. */
  lemma PlainAlone(p: string, tag: string, mark: string)
    requires |tag| >= 1 && tag[0] == '[' && '[' !in p
    ensures SubTag(p, tag, mark) == p
  {
    SubTagPlain(p, "", tag, mark);
    assert p + "" == p;
    assert SubTag("", tag, mark) == "";
  }

  /** The two tags are shaped as the pattern needs and differ in their second character. */
  lemma TagsShaped()
    ensures TagShape(Bold) && TagShape(Italics) && Bold[1] != Italics[1]
  {
  }

  /** Text with neither tag in it comes back unchanged. */
  lemma MarkdownifyTagFree(s: string)
    requires !Contains(s, Bold) && !Contains(s, Italics)
    ensures Markdownify(s) == s
  {
    SubTagTagFree(s, Bold, "**");
    SubTagTagFree(s, Italics, "_");
  }

  /** `[bold]w[/]`, with `w` drawn from the word class, becomes `**w**`; an empty `w` gives
      `****`. */
  lemma MarkdownifyBold(w: string)
    requires IsWord(w)
    ensures Markdownify(Bold + w + Close) == "**" + w + "**"
    ensures Markdownify(Bold + Close) == "****"
  {
    TagsShaped();
    MatchAlone(Bold, w, "**");
    MarkedWord(w, "**");
    PlainAlone("**" + w + "**", Italics, "_");
    EmptyWord(Bold, "**");
    assert "**" + "**" == "****";
    PlainAlone("****", Italics, "_");
  }

  /** `[italics]w[/]`, with `w` drawn from the word class, becomes `_w_`; an empty `w` gives
      `__`. */
  lemma MarkdownifyItalics(w: string)
    requires IsWord(w)
    ensures Markdownify(Italics + w + Close) == "_" + w + "_"
    ensures Markdownify(Italics + Close) == "__"
  {
    TagsShaped();
    WordHasNoBracket(w);
    OtherTagUntouched(Italics, w, Bold, "**");
    MatchAlone(Italics, w, "_");
    OtherTagEmpty(Italics, Bold, "**");
    EmptyWord(Italics, "_");
  }

  /** A tag whose content holds a character outside the word class (a space, say), and no `[`,
      is left untouched by both rewrites. */
  lemma MarkdownifyUntouched(w: string)
    requires !IsWord(w) && '[' !in w
    ensures Markdownify(Bold + w + Close) == Bold + w + Close
    ensures Markdownify(Italics + w + Close) == Italics + w + Close
  {
    TagsShaped();
    SubTagUntouched(w, Bold, "**");
    OtherTagUntouched(Bold, w, Italics, "_");
    OtherTagUntouched(Italics, w, Bold, "**");
    SubTagUntouched(w, Italics, "_");
  }

  /** Bold and italics side by side: the bold rewrite leaves the italics tag for the italics
      rewrite, which then leaves the bold marks alone. */
  lemma MarkdownifyBoldThenItalics(a: string, b: string)
    requires IsWord(a) && IsWord(b)
    ensures Markdownify(Bold + a + Close + Italics + b + Close) == "**" + a + "**" + "_" + b + "_"
  {
    TagsShaped();
    SideBySideFirst(Bold, a, Italics, b, "**");
    MarkedWord(a, "**");
    PlainThenMatch("**" + a + "**", Italics, b, "_");
    assert "**" + a + "**" + "_" + b + "_" == "**" + a + "**" + "_" + b + "_";
  }

  /** The rewrite of the first of two tags side by side replaces the first and leaves the
      second. */
  lemma SideBySideFirst(tag: string, a: string, other: string, b: string, mark: string)
    requires TagShape(tag) && TagShape(other) && other[1] != tag[1] && IsWord(a) && IsWord(b)
    ensures SubTag(tag + a + Close + other + b + Close, tag, mark) == mark + a + mark + (other + b + Close)
  {
    WordHasNoBracket(b);
    OtherTagUntouched(other, b, tag, mark);
    MatchThenRest(tag, a, other + b + Close, mark);
    Regroup(tag + a + Close, other, b, Close);
  }

  lemma Regroup(x: string, y: string, z: string, t: string)
    ensures x + y + z + t == x + (y + z + t)
  {
  }

  lemma MatchThenRest(tag: string, w: string, rest: string, mark: string)
    requires IsWord(w) && SubTag(rest, tag, mark) == rest
    ensures SubTag(tag + w + Close + rest, tag, mark) == mark + w + mark + rest
  {
    SubTagMatch(w, rest, tag, mark);
  }

  /** Text without `[` followed by a match: the text is copied and the match replaced. */
  lemma PlainThenMatch(p: string, tag: string, w: string, mark: string)
    requires IsWord(w) && '[' !in p && |tag| >= 1 && tag[0] == '['
    ensures SubTag(p + (tag + w + Close), tag, mark) == p + mark + w + mark
  {
    var x := tag + w + Close;
    MatchAlone(tag, w, mark);
    SubTagPlain(p, x, tag, mark);
  }

  /** A tag, a word and `[/]` alone become the word between two marks. */
  lemma MatchAlone(tag: string, w: string, mark: string)
    requires IsWord(w)
    ensures SubTag(tag + w + Close, tag, mark) == mark + w + mark
  {
    SubTagMatch(w, "", tag, mark);
    assert tag + w + Close + "" == tag + w + Close;
    assert SubTag("", tag, mark) == "";
  }

  /** A tag directly followed by `[/]` becomes two marks. */
  lemma EmptyWord(tag: string, mark: string)
    ensures SubTag(tag + Close, tag, mark) == mark + mark
  {
    MatchAlone(tag, "", mark);
    assert tag + "" + Close == tag + Close;
    assert mark + "" + mark == mark + mark;
  }

  /** A tag directly followed by `[/]` is left untouched by the rewrite of a different tag. */
  lemma OtherTagEmpty(other: string, tag: string, mark: string)
    requires TagShape(tag) && TagShape(other) && other[1] != tag[1]
    ensures SubTag(other + Close, tag, mark) == other + Close
  {
    OtherTagUntouched(other, "", tag, mark);
    assert other + "" + Close == other + Close;
  }
}
