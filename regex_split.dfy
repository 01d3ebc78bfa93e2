/** `re.split` for the two separator patterns of the semantic chunker,
    written as hand recognisers: the blank-line boundary `\n\s*\n` and the
    sentence boundary `(?<=[.!?])\s+(?=[A-Z])`. */
module RegexSplit {
  import opened Wrappers
  import opened Text

  datatype Boundary =
    | BlankLine    // \n\s*\n
    | SentenceEnd  // (?<=[.!?])\s+(?=[A-Z])

  /** Where a separator that the regular expression matches at position `i`
      ends (exclusive). The blank-line pattern's greedy `\s*` backs off to the
      last line feed of the whitespace run; the sentence pattern's `\s+` takes
      the whole run and then needs an upper-case letter after it. */
  function MatchAt(b: Boundary, s: string, i: nat): (r: Option<nat>)
    requires i < |s|
    ensures r.Some? ==> i < r.value <= |s| && AllSpace(s[i..r.value])
  {
    match b
    case BlankLine =>
      if s[i] != '\n' then None
      else
        var e := SpaceRunEnd(s, i + 1);
        var last := LastNewline(s, i + 1, e);
        if last.None? then None
        else
          var j := last.value;
          var run := s[i + 1..e];
          assert s[i..j + 1] == [s[i]] + run[..j - i];
          assert run == run[..j - i] + run[j - i..];
          AllSpaceAppend(run[..j - i], run[j - i..]);
          AllSpaceAppend([s[i]], run[..j - i]);
          Some(j + 1)
    case SentenceEnd =>
      if i > 0 && s[i - 1] in ".!?" && IsSpace(s[i]) then
        var e := SpaceRunEnd(s, i);
        if e < |s| && IsUpper(s[e]) then Some(e) else None
      else None
  }

  /** `re.split(pattern, s)`. */
  function Split(b: Boundary, s: string): (parts: seq<string>)
    ensures parts != []
  {
    SplitFrom(b, s, 0, 0)
  }

  /** The parts of `s[start..]` when the search for the next separator has
      reached position `i`. */
  function SplitFrom(b: Boundary, s: string, start: nat, i: nat): (parts: seq<string>)
    requires start <= i <= |s|
    ensures parts != []
    decreases |s| - i
  {
    if i == |s| then [s[start..]]
    else
      match MatchAt(b, s, i)
      case Some(e) => [s[start..i]] + SplitFrom(b, s, e, e)
      case None => SplitFrom(b, s, start, i + 1)
  }

  lemma {:induction false} SplitFromNonSpace(b: Boundary, s: string, start: nat, i: nat)
    requires start <= i <= |s|
    ensures NonSpace(Concat(SplitFrom(b, s, start, i))) == NonSpace(s[start..])
    decreases |s| - i
  {
    if i == |s| {
      assert SplitFrom(b, s, start, i) == [s[start..]];
      assert [s[start..]][1..] == [];
      assert Concat([s[start..]]) == s[start..] + Concat([]) == s[start..];
    } else {
      match MatchAt(b, s, i)
      case Some(e) =>
        SplitFromNonSpace(b, s, e, e);
        SeparatorNonSpace(s, start, i, e, SplitFrom(b, s, e, e));
      case None =>
        SplitFromNonSpace(b, s, start, i + 1);
    }
  }

  /** Dropping the whitespace separator `s[i..e]` between `s[start..i]` and
      the parts of `s[e..]` loses no non-whitespace character. */
  lemma {:induction false} SeparatorNonSpace(s: string, start: nat, i: nat, e: nat, rest: seq<string>)
    requires start <= i <= e <= |s| && AllSpace(s[i..e])
    requires NonSpace(Concat(rest)) == NonSpace(s[e..])
    ensures NonSpace(Concat([s[start..i]] + rest)) == NonSpace(s[start..])
  {
    var piece, sep, after := s[start..i], s[i..e], s[e..];
    assert ([piece] + rest)[1..] == rest;
    assert Concat([piece] + rest) == piece + Concat(rest);
    assert s[start..] == piece + (sep + after);
    NonSpaceAppend(piece, sep + after);
    NonSpaceAppend(sep, after);
    NonSpaceEmpty(sep);
    NonSpaceAppend(piece, Concat(rest));
  }

  /** Splitting removes separators only, and separators are whitespace: the
      non-whitespace characters of the parts, in order, are those of `s`. */
  lemma {:induction false} SplitNonSpace(b: Boundary, s: string)
    ensures NonSpace(Concat(Split(b, s))) == NonSpace(s)
  {
    SplitFromNonSpace(b, s, 0, 0);
    assert s[0..] == s;
  }

  predicate EndsSentence(p: string) {
    p != [] && p[|p| - 1] in ".!?"
  }

  predicate StartsSentence(p: string) {
    p != [] && IsUpper(p[0])
  }

  lemma {:induction false} SentenceSplitFromBoundaries(s: string, start: nat, i: nat)
    requires start <= i <= |s|
    requires start > 0 ==> start < |s| && IsUpper(s[start])
    ensures var parts := SplitFrom(SentenceEnd, s, start, i);
      && (start > 0 ==> StartsSentence(parts[0]))
      && (forall k :: 1 <= k < |parts| ==> StartsSentence(parts[k]))
      && (forall k :: 0 <= k < |parts| - 1 ==> EndsSentence(parts[k]))
    decreases |s| - i
  {
    if i == |s| {
    } else {
      match MatchAt(SentenceEnd, s, i)
      case Some(e) =>
        assert e < |s| && IsUpper(s[e]);
        SentenceSplitFromBoundaries(s, e, e);
        var rest := SplitFrom(SentenceEnd, s, e, e);
        var parts := [s[start..i]] + rest;
        assert parts == SplitFrom(SentenceEnd, s, start, i);
        assert i > start;
        assert EndsSentence(parts[0]);
        forall k | 1 <= k < |parts| ensures StartsSentence(parts[k]) {
          assert parts[k] == rest[k - 1];
        }
        forall k | 0 <= k < |parts| - 1 ensures EndsSentence(parts[k]) {
          if k > 0 { assert parts[k] == rest[k - 1]; }
        }
      case None =>
        assert SplitFrom(SentenceEnd, s, start, i) == SplitFrom(SentenceEnd, s, start, i + 1);
        SentenceSplitFromBoundaries(s, start, i + 1);
    }
  }

  /** The sentence pattern splits only between a part ending in `.`, `!` or
      `?` and a part starting with an upper-case letter. */
  lemma {:induction false} SentenceSplitBoundaries(s: string)
    ensures var parts := Split(SentenceEnd, s);
      && (forall k :: 1 <= k < |parts| ==> StartsSentence(parts[k]))
      && (forall k :: 0 <= k < |parts| - 1 ==> EndsSentence(parts[k]))
  {
    assert Split(SentenceEnd, s) == SplitFrom(SentenceEnd, s, 0, 0);
    SentenceSplitFromBoundaries(s, 0, 0);
  }
}
