/** The heuristic that reads a printed page number off the text of a PDF
    page: the case-insensitive pattern `^(?:Page\s*)?-?\s*(\d+)\s*-?$` is
    tried on each stripped line among the first and the last few lines, and
    the digits of the first line that matches are the page number. Both PDF
    readers use it, with windows of three and five lines. */
module Pagination {
  import opened Wrappers
  import opened Text

  /** What a page without a recognisable page number gets. */
  const Unknown := "Unknown"

  /** The end (exclusive) of the run of digits that starts at `i`. */
  function DigitRunEnd(s: string, i: nat): (e: nat)
    requires i <= |s|
    ensures i <= e <= |s|
    ensures AllDigits(s[i..e])
    ensures e < |s| ==> !IsDigit(s[e])
    decreases |s| - i
  {
    if i < |s| && IsDigit(s[i]) then
      var e := DigitRunEnd(s, i + 1);
      assert forall k :: 0 < k < e - i ==> s[i..e][k] == s[i + 1..e][k - 1];
      e
    else i
  }

  /** `Page` under `re.IGNORECASE`. */
  predicate IsPageWord(w: string) {
    && |w| == 4
    && (w[0] == 'p' || w[0] == 'P')
    && (w[1] == 'a' || w[1] == 'A')
    && (w[2] == 'g' || w[2] == 'G')
    && (w[3] == 'e' || w[3] == 'E')
  }

  /** A line the pattern matches, cut into the pieces of the pattern:
      `(?:Page\s*)?`, `-?`, `\s*`, `(\d+)`, `\s*`, `-?`. */
  datatype PageLine = PageLine(page: string, dash: string, before: string,
                               digits: string, after: string, trailer: string)

  predicate OptionalDash(d: string) {
    d == [] || d == "-"
  }

  predicate PagePrefix(a: string) {
    a == [] || (|a| >= 4 && IsPageWord(a[..4]) && AllSpace(a[4..]))
  }

  predicate WellShaped(p: PageLine) {
    && PagePrefix(p.page)
    && OptionalDash(p.dash)
    && AllSpace(p.before)
    && p.digits != [] && AllDigits(p.digits)
    && AllSpace(p.after)
    && OptionalDash(p.trailer)
  }

  function Render(p: PageLine): string {
    p.page + p.dash + p.before + p.digits + p.after + p.trailer
  }

  /** The line is one the pattern describes, with `d` as its group. */
  ghost predicate IsPageLine(line: string, d: string) {
    exists p :: WellShaped(p) && Render(p) == line && p.digits == d
  }

  /** Where each piece of the pattern ends (exclusive) in a line. */
  datatype Cut = Cut(page: nat, dash: nat, before: nat, digits: nat, after: nat, trailer: nat)

  predicate Ordered(line: string, c: Cut) {
    c.page <= c.dash <= c.before <= c.digits <= c.after <= c.trailer <= |line|
  }

  function Pieces(line: string, c: Cut): PageLine
    requires Ordered(line, c)
  {
    PageLine(line[..c.page], line[c.page..c.dash], line[c.dash..c.before],
             line[c.before..c.digits], line[c.digits..c.after], line[c.after..c.trailer])
  }

  /** Where `(?:Page\s*)?` ends when matched greedily at the start. */
  function PrefixEnd(line: string): (i: nat)
    ensures i <= |line| && PagePrefix(line[..i])
  {
    if |line| >= 4 && IsPageWord(line[..4]) then
      var i := SpaceRunEnd(line, 4);
      assert line[..i][..4] == line[..4];
      assert line[..i][4..] == line[4..i];
      i
    else 0
  }

  /** Where `-?` ends when matched greedily at `i`. */
  function DashEnd(line: string, i: nat): (j: nat)
    requires i <= |line|
    ensures i <= j <= |line| && OptionalDash(line[i..j])
  {
    if i < |line| && line[i] == '-' then
      assert line[i..i + 1] == [line[i]];
      i + 1
    else i
  }

  /** The pattern's pieces taken greedily from the start of the line. */
  function Scan(line: string): (c: Cut)
    ensures Ordered(line, c)
    ensures var p := Pieces(line, c);
      && PagePrefix(p.page) && OptionalDash(p.dash) && AllSpace(p.before)
      && AllDigits(p.digits) && AllSpace(p.after) && OptionalDash(p.trailer)
  {
    var i1 := PrefixEnd(line);
    var i2 := DashEnd(line, i1);
    var i3 := SpaceRunEnd(line, i2);
    var j := DigitRunEnd(line, i3);
    var k := SpaceRunEnd(line, j);
    Cut(i1, i2, i3, j, k, DashEnd(line, k))
  }

  /** `re.search` of the pattern on a line: the scan matches when it found
      at least one digit and consumed the whole line. Each quantifier of the
      pattern is greedy and what follows it cannot start with a character it
      consumes, so backtracking never finds another match. */
  function MatchPageLine(line: string): (r: Option<string>)
    ensures r.Some? ==> r.value != [] && AllDigits(r.value)
  {
    var c := Scan(line);
    if c.before < c.digits && c.trailer == |line| then Some(line[c.before..c.digits]) else None
  }

  lemma {:induction false} AllDigitsAppend(a: string, b: string)
    ensures AllDigits(a + b) ==> AllDigits(b)
  {
    if AllDigits(a + b) {
      forall i | 0 <= i < |b| ensures IsDigit(b[i]) { assert b[i] == (a + b)[|a| + i]; }
    }
  }

  lemma {:induction false} DigitRunEndAt(s: string, i: nat, j: nat)
    requires i <= j <= |s| && AllDigits(s[i..j])
    requires j < |s| ==> !IsDigit(s[j])
    ensures DigitRunEnd(s, i) == j
    decreases j - i
  {
    if i < j {
      assert s[i..j] == [s[i]] + s[i + 1..j];
      AllDigitsAppend([s[i]], s[i + 1..j]);
      DigitRunEndAt(s, i + 1, j);
    }
  }

  lemma {:induction false} Slices6(s: string, c: Cut)
    requires Ordered(s, c) && c.trailer == |s|
    ensures Render(Pieces(s, c)) == s
  {
  }

  /** Every match of the pattern is a line of the described shape, and the
      group is its digits. */
  lemma {:induction false} MatchSound(line: string)
    requires MatchPageLine(line).Some?
    ensures IsPageLine(line, MatchPageLine(line).value)
  {
    var c := Scan(line);
    Slices6(line, c);
    assert WellShaped(Pieces(line, c));
  }

  /** The ends of the pieces of a rendered line. */
  function Ends(p: PageLine): Cut {
    var a := |p.page|;
    var b := a + |p.dash|;
    var c := b + |p.before|;
    var d := c + |p.digits|;
    var e := d + |p.after|;
    Cut(a, b, c, d, e, e + |p.trailer|)
  }

  lemma {:induction false} RenderPieces(p: PageLine)
    ensures Ordered(Render(p), Ends(p)) && Ends(p).trailer == |Render(p)|
    ensures Pieces(Render(p), Ends(p)) == p
  {
    var line := Render(p);
    var e := Ends(p);
    var x1 := p.page + p.dash;
    var x2 := x1 + p.before;
    var x3 := x2 + p.digits;
    var x4 := x3 + p.after;
    assert line == x4 + p.trailer;
    assert line[..e.after] == x4 && line[e.after..e.trailer] == p.trailer;
    assert x4[..e.digits] == x3 && x4[e.digits..e.after] == p.after;
    assert x3[..e.before] == x2 && x3[e.before..e.digits] == p.digits;
    assert x2[..e.dash] == x1 && x2[e.dash..e.before] == p.before;
    assert x1[..e.page] == p.page && x1[e.page..e.dash] == p.dash;
    assert line[..e.page] == p.page;
    assert line[e.page..e.dash] == p.dash;
    assert line[e.dash..e.before] == p.before;
    assert line[e.before..e.digits] == p.digits;
    assert line[e.digits..e.after] == p.after;
  }

  /** What a well-shaped cut says about single characters of the line. */
  predicate CutFacts(line: string, e: Cut)
    requires Ordered(line, e)
  {
    && e.trailer == |line|
    && e.before < e.digits && IsDigit(line[e.before])
    && (e.page > 0 ==> e.page >= 4 && IsPageWord(line[..4]) && AllSpace(line[4..e.page]))
    && (e.page == 0 ==> line[0] != 'p' && line[0] != 'P')
    && (e.page < e.dash ==> e.dash == e.page + 1 && line[e.page] == '-')
    && AllSpace(line[e.dash..e.before])
    && AllDigits(line[e.before..e.digits])
    && (e.digits < |line| ==> !IsDigit(line[e.digits]))
    && AllSpace(line[e.digits..e.after])
    && (e.after < |line| ==> e.trailer == e.after + 1 && line[e.after] == '-')
  }

  lemma {:induction false} WellShapedCutFacts(line: string, e: Cut)
    requires Ordered(line, e) && e.trailer == |line| && WellShaped(Pieces(line, e))
    ensures CutFacts(line, e)
  {
    var p := Pieces(line, e);
    assert line[e.before] == p.digits[0];
    if e.page > 0 {
      assert line[..4] == p.page[..4];
      assert line[4..e.page] == p.page[4..];
    } else {
      assert line[0] == (if p.dash != [] then p.dash[0] else if p.before != [] then p.before[0] else p.digits[0]);
    }
    if e.page < e.dash {
      assert line[e.page] == p.dash[0];
    }
    if e.digits < |line| {
      assert line[e.digits] == (if p.after != [] then p.after[0] else p.trailer[0]);
    }
    if e.after < |line| {
      assert line[e.after] == p.trailer[0];
    }
  }

  /** On a line with a well-shaped cut, the greedy `(?:Page\s*)?-?\s*` ends
      where the cut's leading whitespace ends. */
  lemma {:induction false} PrefixFinds(line: string, e: Cut)
    requires Ordered(line, e) && CutFacts(line, e)
    ensures SpaceRunEnd(line, DashEnd(line, PrefixEnd(line))) == e.before
  {
    if e.page == 0 {
      assert PrefixEnd(line) == 0;
    } else if e.page < e.dash {
      SpaceRunEndAt(line, 4, e.page);
      assert PrefixEnd(line) == e.page;
    } else {
      assert line[4..e.before] == line[4..e.page] + line[e.page..e.before];
      AllSpaceAppend(line[4..e.page], line[e.page..e.before]);
      SpaceRunEndAt(line, 4, e.before);
      assert PrefixEnd(line) == e.before;
    }
    var i2 := DashEnd(line, PrefixEnd(line));
    assert i2 == e.dash || (e.page == e.dash && i2 == e.before);
    SpaceRunEndAt(line, i2, e.before);
  }

  /** On a line with a well-shaped cut the scan finds the group where the
      cut has it, and runs to the end of the line. */
  lemma {:induction false} ScanFinds(line: string, e: Cut)
    requires Ordered(line, e) && CutFacts(line, e)
    ensures Scan(line).before == e.before
    ensures Scan(line).digits == e.digits
    ensures Scan(line).trailer == |line|
  {
    PrefixFinds(line, e);
    DigitRunEndAt(line, e.before, e.digits);
    SpaceRunEndAt(line, e.digits, e.after);
  }

  /** Every line of the described shape is matched, with its digits as the
      group. */
  lemma {:induction false} MatchComplete(p: PageLine)
    requires WellShaped(p)
    ensures MatchPageLine(Render(p)) == Some(p.digits)
  {
    RenderPieces(p);
    WellShapedCutFacts(Render(p), Ends(p));
    ScanFinds(Render(p), Ends(p));
  }

  /** The recogniser and the described shape agree, in both directions. */
  lemma {:induction false} MatchIff(line: string, d: string)
    ensures MatchPageLine(line) == Some(d) <==> IsPageLine(line, d)
  {
    if MatchPageLine(line) == Some(d) {
      MatchSound(line);
    }
    if IsPageLine(line, d) {
      var p :| WellShaped(p) && Render(p) == line && p.digits == d;
      MatchComplete(p);
    }
  }

  /** The three forms named beside the pattern, `12`, `- 12 -` and
      `Page 12`, are matched whatever the number. */
  lemma {:induction false} MatchExamples(n: string)
    requires n != [] && AllDigits(n)
    ensures MatchPageLine(n) == Some(n)
    ensures MatchPageLine("- " + n + " -") == Some(n)
    ensures MatchPageLine("Page " + n) == Some(n)
  {
    BareExample(n);
    DashedExample(n);
    WordedExample(n);
  }

  lemma {:induction false} BareExample(n: string)
    requires n != [] && AllDigits(n)
    ensures MatchPageLine(n) == Some(n)
  {
    var bare := PageLine("", "", "", n, "", "");
    assert WellShaped(bare);
    assert Render(bare) == n;
    MatchComplete(bare);
  }

  lemma {:induction false} DashedExample(n: string)
    requires n != [] && AllDigits(n)
    ensures MatchPageLine("- " + n + " -") == Some(n)
  {
    var dashed := PageLine("", "-", " ", n, " ", "-");
    assert AllSpace(" ") by { assert IsSpace(" "[0]); }
    assert WellShaped(dashed);
    assert Render(dashed) == "- " + n + " -";
    MatchComplete(dashed);
  }

  lemma {:induction false} WordedExample(n: string)
    requires n != [] && AllDigits(n)
    ensures MatchPageLine("Page " + n) == Some(n)
  {
    var page := "Page ";
    assert page[..4] == "Page" && page[4..] == " ";
    assert PagePrefix(page) by { assert AllSpace(" ") by { assert IsSpace(" "[0]); } }
    var worded := PageLine(page, "", "", n, "", "");
    assert Render(worded) == "Page " + n;
    MatchComplete(worded);
  }

  /** `lines[:w] + lines[-w:]`. A page with at most `w` lines contributes
      each line twice. */
  function Candidates(lines: seq<string>, w: nat): (cands: seq<string>)
    requires w > 0
    ensures |cands| == 2 * (if |lines| < w then |lines| else w)
  {
    var front := if |lines| < w then |lines| else w;
    var back := if |lines| < w then 0 else |lines| - w;
    lines[..front] + lines[back..]
  }

  /** Lines outside the window never affect the guess: two pages whose
      lines agree on the first `w` and the last `w` get the same guess. */
  lemma {:induction false} GuessReadsOnlyWindow(text1: string, text2: string, w: nat)
    requires w > 0
    requires var l1, l2 := SplitOn(text1, "\n"), SplitOn(text2, "\n");
      && |l1| == |l2|
      && forall i :: 0 <= i < |l1| && (i < w || i >= |l1| - w) ==> l1[i] == l2[i]
    ensures GuessInternalPageNumber(text1, w) == GuessInternalPageNumber(text2, w)
  {
    var l1, l2 := SplitOn(text1, "\n"), SplitOn(text2, "\n");
    var c1, c2 := Candidates(l1, w), Candidates(l2, w);
    forall i | 0 <= i < |c1| ensures c1[i] == c2[i] {
      var front := if |l1| < w then |l1| else w;
      var back := if |l1| < w then 0 else |l1| - w;
      if i < front {
        assert c1[i] == l1[i] && c2[i] == l2[i];
      } else {
        assert c1[i] == l1[back + i - front] && c2[i] == l2[back + i - front];
      }
    }
    assert c1 == c2;
  }

  /** The first value in `opts`: what a loop over the candidates that
      returns at its first success computes. */
  function FirstSome(opts: seq<Option<string>>): (r: Option<string>)
    ensures r.None? <==> forall i :: 0 <= i < |opts| ==> opts[i].None?
    ensures r.Some? ==> exists i :: 0 <= i < |opts| && opts[i] == r && NoneBefore(opts, i)
  {
    if opts == [] then None
    else if opts[0].Some? then
      assert NoneBefore(opts, 0);
      opts[0]
    else
      var r := FirstSome(opts[1..]);
      if r.Some? then
        var i :| 0 <= i < |opts[1..]| && opts[1..][i] == r && NoneBefore(opts[1..], i);
        assert opts[i + 1] == r;
        assert NoneBefore(opts, i + 1) by {
          forall k | 0 <= k < i + 1 ensures opts[k].None? {
            if k > 0 { assert opts[k] == opts[1..][k - 1]; }
          }
        }
        r
      else
        assert forall i :: 1 <= i < |opts| ==> opts[i] == opts[1..][i - 1];
        r
  }

  predicate NoneBefore(opts: seq<Option<string>>, i: nat)
    requires i <= |opts|
  {
    forall k :: 0 <= k < i ==> opts[k].None?
  }

  /** The match of each stripped candidate line. */
  function LineMatches(cands: seq<string>): (ms: seq<Option<string>>)
    ensures |ms| == |cands|
  {
    seq(|cands|, i requires 0 <= i < |cands| => MatchPageLine(Strip(cands[i])))
  }

  /** `_guess_internal_pagination` with a window of `w` lines at each end.
      `split('\n')` never returns an empty list, so the source's guard for
      one is dead and has no counterpart here. */
  function GuessInternalPageNumber(text: string, w: nat): (r: string)
    requires w > 0
    ensures r == Unknown || (r != [] && AllDigits(r))
  {
    var cands := Candidates(SplitOn(text, "\n"), w);
    FirstMatchDigits(cands);
    match FirstSome(LineMatches(cands))
    case Some(d) => d
    case None => Unknown
  }

  /** The first match among the candidates is a digit string. */
  lemma {:induction false} FirstMatchDigits(cands: seq<string>)
    ensures var r := FirstSome(LineMatches(cands));
      r.Some? ==> r.value != [] && AllDigits(r.value)
  {
    var ms := LineMatches(cands);
    forall k | 0 <= k < |ms| && ms[k].Some?
      ensures ms[k].value != [] && AllDigits(ms[k].value)
    {
      assert ms[k] == MatchPageLine(Strip(cands[k]));
    }
    FirstSomeDigits(ms);
  }

  lemma {:induction false} FirstSomeDigits(ms: seq<Option<string>>)
    requires forall k :: 0 <= k < |ms| && ms[k].Some? ==> ms[k].value != [] && AllDigits(ms[k].value)
    ensures var r := FirstSome(ms); r.Some? ==> r.value != [] && AllDigits(r.value)
  {
    var r := FirstSome(ms);
    if r.Some? {
      var i :| 0 <= i < |ms| && ms[i] == r && NoneBefore(ms, i);
    }
  }

  /** The match of a stripped candidate is a page-number line of the
      described shape, and nothing else is. */
  lemma {:induction false} LineMatchesShape(cands: seq<string>, i: nat, d: string)
    requires i < |cands|
    ensures IsPageLine(Strip(cands[i]), d) <==> LineMatches(cands)[i] == Some(d)
  {
    MatchIff(Strip(cands[i]), d);
  }

  /** Over any candidate lines: the first match is found exactly when some
      stripped candidate has the described shape, and it is the digits of
      the first such candidate. */
  lemma {:induction false} FirstLineMatch(cands: seq<string>)
    ensures var r := FirstSome(LineMatches(cands));
      && (r.Some? <==> exists i, d :: 0 <= i < |cands| && IsPageLine(Strip(cands[i]), d))
      && (r.Some? ==>
            exists i :: 0 <= i < |cands| && IsPageLine(Strip(cands[i]), r.value) &&
              forall k, d :: 0 <= k < i ==> !IsPageLine(Strip(cands[k]), d))
  {
    var ms := LineMatches(cands);
    var r := FirstSome(ms);
    if r.Some? {
      var i :| 0 <= i < |ms| && ms[i] == r && NoneBefore(ms, i);
      LineMatchesShape(cands, i, r.value);
      forall k, d | 0 <= k < i ensures !IsPageLine(Strip(cands[k]), d) {
        LineMatchesShape(cands, k, d);
      }
    } else {
      forall i, d | 0 <= i < |cands| ensures !IsPageLine(Strip(cands[i]), d) {
        LineMatchesShape(cands, i, d);
      }
    }
  }

  /** The guess is a page number exactly when some stripped candidate line
      has the described shape. */
  lemma {:induction false} GuessFound(text: string, w: nat)
    requires w > 0
    ensures var cands := Candidates(SplitOn(text, "\n"), w);
      GuessInternalPageNumber(text, w) != Unknown <==>
        exists i, d :: 0 <= i < |cands| && IsPageLine(Strip(cands[i]), d)
  {
    GuessIsFirstMatch(text, w);
    FirstLineMatch(Candidates(SplitOn(text, "\n"), w));
  }

  /** A page-number guess is the digits of the first stripped candidate line
      that has the described shape. */
  lemma {:induction false} GuessIsFirst(text: string, w: nat)
    requires w > 0
    ensures var cands := Candidates(SplitOn(text, "\n"), w);
      var r := GuessInternalPageNumber(text, w);
      r != Unknown ==>
        exists i :: 0 <= i < |cands| && IsPageLine(Strip(cands[i]), r) &&
          forall k, d :: 0 <= k < i ==> !IsPageLine(Strip(cands[k]), d)
  {
    var cands := Candidates(SplitOn(text, "\n"), w);
    var m := FirstSome(LineMatches(cands));
    GuessIsFirstMatch(text, w);
    FirstLineMatch(cands);
    if m.Some? {
      var i :| 0 <= i < |cands| && IsPageLine(Strip(cands[i]), m.value) &&
        forall k, d :: 0 <= k < i ==> !IsPageLine(Strip(cands[k]), d);
      assert IsPageLine(Strip(cands[i]), GuessInternalPageNumber(text, w));
    }
  }

  lemma {:induction false} GuessIsFirstMatch(text: string, w: nat)
    requires w > 0
    ensures var m := FirstSome(LineMatches(Candidates(SplitOn(text, "\n"), w)));
      && (m.Some? <==> GuessInternalPageNumber(text, w) != Unknown)
      && (m.Some? ==> m.value == GuessInternalPageNumber(text, w))
  {
    var m := FirstSome(LineMatches(Candidates(SplitOn(text, "\n"), w)));
    if m.Some? {
      assert m.value != Unknown by { assert AllDigits(m.value) && Unknown[0] == 'U'; }
    }
  }
}
