/** Character classes and the few string operations of Python's `str` that
    the ingestion pipeline relies on: `strip`, `split`, `join`, `replace`. */
module Text {
  import opened Wrappers
  import opened Seqs

  /** Python's `str.isspace`; a `\s` in a str regular expression matches
      exactly these characters. */
  predicate IsSpace(c: char) {
    || ('\t' <= c <= '\r')
    || ('\U{1C}' <= c <= ' ')
    || c == '\U{85}' || c == '\U{A0}' || c == '\U{1680}'
    || ('\U{2000}' <= c <= '\U{200A}')
    || c == '\U{2028}' || c == '\U{2029}' || c == '\U{202F}' || c == '\U{205F}'
    || c == '\U{3000}'
  }

  /** A decimal digit (`\d`, restricted to ASCII). */
  predicate IsDigit(c: char) { '0' <= c <= '9' }

  /** `[A-Z]`: an ASCII upper-case letter. */
  predicate IsUpper(c: char) { 'A' <= c <= 'Z' }

  /** `str.isalnum` on a single character, restricted to ASCII. */
  predicate IsAlnum(c: char) { IsDigit(c) || IsUpper(c) || 'a' <= c <= 'z' }

  predicate AllSpace(s: string) {
    forall i :: 0 <= i < |s| ==> IsSpace(s[i])
  }

  predicate AllDigits(s: string) {
    forall i :: 0 <= i < |s| ==> IsDigit(s[i])
  }

  /** The end (exclusive) of the run of whitespace that starts at `i`. */
  function SpaceRunEnd(s: string, i: nat): (e: nat)
    requires i <= |s|
    ensures i <= e <= |s|
    ensures AllSpace(s[i..e])
    ensures e < |s| ==> !IsSpace(s[e])
    decreases |s| - i
  {
    if i < |s| && IsSpace(s[i]) then
      var e := SpaceRunEnd(s, i + 1);
      assert s[i..e] == [s[i]] + s[i + 1..e];
      AllSpaceAppend([s[i]], s[i + 1..e]);
      e
    else i
  }

  lemma {:induction false} SpaceRunEndAt(s: string, i: nat, j: nat)
    requires i <= j <= |s| && AllSpace(s[i..j])
    requires j < |s| ==> !IsSpace(s[j])
    ensures SpaceRunEnd(s, i) == j
    decreases j - i
  {
    if i < j {
      assert s[i..j] == [s[i]] + s[i + 1..j];
      AllSpaceAppend([s[i]], s[i + 1..j]);
      SpaceRunEndAt(s, i + 1, j);
    }
  }

  /** The whitespace run starting at `i` stops at or before any
      non-whitespace character. */
  lemma {:induction false} SpaceRunEndBound(s: string, i: nat, m: nat)
    requires i <= m < |s| && !IsSpace(s[m])
    ensures SpaceRunEnd(s, i) <= m
    decreases m - i
  {
    if i < m && IsSpace(s[i]) {
      SpaceRunEndBound(s, i + 1, m);
    }
  }

  /** No whitespace at either end: what `strip` produces. */
  predicate IsStripped(s: string) {
    s == [] || (!IsSpace(s[0]) && !IsSpace(s[|s| - 1]))
  }

  /** The characters of `s` that are not whitespace, in order. */
  function NonSpace(s: string): (r: string)
    ensures |r| <= |s|
  {
    if s == [] then [] else (if IsSpace(s[0]) then [] else [s[0]]) + NonSpace(s[1..])
  }

  /** A string has no non-whitespace character exactly when it is all
      whitespace. */
  lemma {:induction false} NonSpaceEmpty(s: string)
    ensures NonSpace(s) == [] <==> AllSpace(s)
  {
    if s != [] {
      NonSpaceEmpty(s[1..]);
      assert s == [s[0]] + s[1..];
      AllSpaceAppend([s[0]], s[1..]);
    }
  }

  lemma {:induction false} NonSpaceAppend(a: string, b: string)
    ensures NonSpace(a + b) == NonSpace(a) + NonSpace(b)
  {
    if a == [] {
      assert a + b == b;
    } else {
      var head := if IsSpace(a[0]) then [] else [a[0]];
      assert (a + b)[0] == a[0] && (a + b)[1..] == a[1..] + b;
      assert NonSpace(a + b) == head + NonSpace(a[1..] + b);
      assert NonSpace(a) == head + NonSpace(a[1..]);
      NonSpaceAppend(a[1..], b);
      AppendAssoc(head, NonSpace(a[1..]), NonSpace(b));
    }
  }

  lemma {:induction false} AllSpaceAppend(a: string, b: string)
    ensures AllSpace(a + b) <==> AllSpace(a) && AllSpace(b)
  {
    if AllSpace(a + b) {
      forall i | 0 <= i < |b| ensures IsSpace(b[i]) { assert b[i] == (a + b)[|a| + i]; }
      forall i | 0 <= i < |a| ensures IsSpace(a[i]) { assert a[i] == (a + b)[i]; }
    }
  }

  /** `s.lstrip()`: drops leading whitespace; the result is a suffix of `s`. */
  function LStrip(s: string): (r: string)
    ensures |r| <= |s| && r == s[|s| - |r|..]
    ensures AllSpace(s[..|s| - |r|])
    ensures r == [] || !IsSpace(r[0])
  {
    if s != [] && IsSpace(s[0]) then
      var r := LStrip(s[1..]);
      LStripStep(s, r);
      r
    else
      assert s[..0] == [];
      s
  }

  /** Dropping one leading whitespace character keeps the suffix shape. */
  lemma {:induction false} LStripStep(s: string, r: string)
    requires s != [] && IsSpace(s[0])
    requires |r| <= |s| - 1 && r == s[1..][|s| - 1 - |r|..]
    requires AllSpace(s[1..][..|s| - 1 - |r|])
    ensures r == s[|s| - |r|..] && AllSpace(s[..|s| - |r|])
  {
    var t := s[1..];
    var k := |t| - |r|;
    assert t[k..] == s[k + 1..];
    assert s[..k + 1] == [s[0]] + t[..k];
    AllSpaceAppend([s[0]], t[..k]);
  }

  /** `s.rstrip()`: drops trailing whitespace; the result is a prefix of `s`. */
  function RStrip(s: string): (r: string)
    ensures |r| <= |s| && r == s[..|r|]
    ensures AllSpace(s[|r|..])
    ensures r == [] || !IsSpace(r[|r| - 1])
  {
    if s != [] && IsSpace(s[|s| - 1]) then
      var r := RStrip(s[..|s| - 1]);
      assert s[|r|..] == s[..|s| - 1][|r|..] + [s[|s| - 1]];
      AllSpaceAppend(s[..|s| - 1][|r|..], [s[|s| - 1]]);
      r
    else s
  }

  /** `s.strip()`: the slice of `s` between its leading and its trailing
      whitespace. */
  function Strip(s: string): (r: string)
    ensures |r| <= |s|
    ensures IsStripped(r)
  {
    RStrip(LStrip(s))
  }

  /** The result of `strip` is a slice of its argument. */
  lemma {:induction false} StripIsSlice(s: string)
    ensures |s| - |LStrip(s)| + |Strip(s)| <= |s|
    ensures Strip(s) == s[|s| - |LStrip(s)|..|s| - |LStrip(s)| + |Strip(s)|]
  {
  }

  /** A character absent from a string is absent from it stripped. */
  lemma {:induction false} StripKeepsAbsent(s: string, c: char)
    requires forall k :: 0 <= k < |s| ==> s[k] != c
    ensures forall k :: 0 <= k < |Strip(s)| ==> Strip(s)[k] != c
  {
    StripIsSlice(s);
    var lo := |s| - |LStrip(s)|;
    SliceKeepsAbsent(s, lo, lo + |Strip(s)|, c);
  }

  lemma {:induction false} SliceKeepsAbsent(s: string, lo: nat, hi: nat, c: char)
    requires lo <= hi <= |s|
    requires forall k :: 0 <= k < |s| ==> s[k] != c
    ensures forall k :: 0 <= k < hi - lo ==> s[lo..hi][k] != c
  {
    forall k | 0 <= k < hi - lo ensures s[lo..hi][k] != c {
      assert s[lo..hi][k] == s[lo + k];
    }
  }

  /** `strip` yields the empty string exactly on all-whitespace input. */
  lemma {:induction false} StripEmpty(s: string)
    ensures Strip(s) == [] <==> AllSpace(s)
  {
    if Strip(s) == [] { StripEmptyOnlyIfSpace(s); }
    if AllSpace(s) { StripEmptyIfSpace(s); }
  }

  lemma {:induction false} StripEmptyOnlyIfSpace(s: string)
    requires Strip(s) == []
    ensures AllSpace(s)
  {
    var l := LStrip(s);
    var r := RStrip(l);
    var head := s[..|s| - |l|];
    var tail := l[|r|..];
    assert s == head + l;
    assert l == r + tail;
    assert l == tail;
    AllSpaceAppend(head, l);
  }

  lemma {:induction false} StripEmptyIfSpace(s: string)
    requires AllSpace(s)
    ensures Strip(s) == []
  {
    var l := LStrip(s);
    var r := RStrip(l);
    var head := s[..|s| - |l|];
    assert s == head + l;
    AllSpaceAppend(head, l);
    assert l == r + l[|r|..];
    AllSpaceAppend(r, l[|r|..]);
  }

  lemma {:induction false} NonSpaceOfAllSpace(s: string)
    requires AllSpace(s)
    ensures NonSpace(s) == []
  {
    NonSpaceEmpty(s);
  }

  /** Stripping removes whitespace only. */
  lemma {:induction false} NonSpaceStrip(s: string)
    ensures NonSpace(Strip(s)) == NonSpace(s)
  {
    var l := LStrip(s);
    var r := RStrip(l);
    assert NonSpace(l) == NonSpace(r) by {
      var tail := l[|r|..];
      SplitAt(l, |r|);
      NonSpaceAppend(r, tail);
      NonSpaceEmpty(tail);
      AppendEmpty(NonSpace(r));
    }
    assert NonSpace(s) == NonSpace(l) by {
      var head := s[..|s| - |l|];
      SplitAt(s, |s| - |l|);
      NonSpaceAppend(head, l);
      NonSpaceEmpty(head);
      EmptyAppend(NonSpace(l));
    }
  }

  lemma {:induction false} LStripSpacePrefix(w: string, y: string)
    requires AllSpace(w)
    requires y == [] || !IsSpace(y[0])
    ensures LStrip(w + y) == y
  {
    if w == [] {
      assert w + y == y;
    } else {
      assert (w + y)[1..] == w[1..] + y;
      assert (w + y)[0] == w[0];
      LStripSpacePrefix(w[1..], y);
    }
  }

  lemma {:induction false} RStripSpaceSuffix(y: string, w: string)
    requires AllSpace(w)
    requires y == [] || !IsSpace(y[|y| - 1])
    ensures RStrip(y + w) == y
  {
    if w == [] {
      assert y + w == y;
    } else {
      assert (y + w)[..|y + w| - 1] == y + w[..|w| - 1];
      assert (y + w)[|y + w| - 1] == w[|w| - 1];
      RStripSpaceSuffix(y, w[..|w| - 1]);
    }
  }

  /** Whitespace on either side of a stripped string is exactly what `strip`
      removes. */
  lemma {:induction false} StripSurrounded(w1: string, x: string, w2: string)
    requires AllSpace(w1) && AllSpace(w2) && IsStripped(x)
    ensures Strip(w1 + x + w2) == x
  {
    if x == [] {
      assert w1 + x + w2 == w1 + w2;
      AllSpaceAppend(w1, w2);
    } else {
      assert w1 + x + w2 == w1 + (x + w2);
      LStripSpacePrefix(w1, x + w2);
      RStripSpaceSuffix(x, w2);
    }
  }

  lemma {:induction false} StripStripped(x: string)
    requires IsStripped(x)
    ensures Strip(x) == x
  {
    StripSurrounded([], x, []);
    assert [] + x + [] == x;
  }

  /** `strip` is idempotent. */
  lemma {:induction false} StripIdempotent(s: string)
    ensures Strip(Strip(s)) == Strip(s)
  {
    StripStripped(Strip(s));
  }

  /** `[s.strip() for s in parts if s.strip()]`: the stripped parts, blank ones
      dropped. */
  function StrippedNonEmpty(parts: seq<string>): seq<string> {
    if parts == [] then []
    else
      var p := Strip(parts[|parts| - 1]);
      StrippedNonEmpty(parts[..|parts| - 1]) + (if p == [] then [] else [p])
  }

  /** Every part kept is non-empty and stripped. */
  lemma {:induction false} StrippedNonEmptyShape(parts: seq<string>)
    ensures forall k :: 0 <= k < |StrippedNonEmpty(parts)| ==>
      StrippedNonEmpty(parts)[k] != [] && IsStripped(StrippedNonEmpty(parts)[k])
  {
    if parts != [] {
      var init := StrippedNonEmpty(parts[..|parts| - 1]);
      var p := Strip(parts[|parts| - 1]);
      StrippedNonEmptyShape(parts[..|parts| - 1]);
      assert StrippedNonEmpty(parts) == init + (if p == [] then [] else [p]);
      KeptShapeSnoc(init, p);
    }
  }

  lemma {:induction false} KeptShapeSnoc(init: seq<string>, p: string)
    requires forall k :: 0 <= k < |init| ==> init[k] != [] && IsStripped(init[k])
    requires IsStripped(p)
    ensures var r := init + (if p == [] then [] else [p]);
      forall k :: 0 <= k < |r| ==> r[k] != [] && IsStripped(r[k])
  {
    var r := init + (if p == [] then [] else [p]);
    forall k | 0 <= k < |r| ensures r[k] != [] && IsStripped(r[k]) {
      if k < |init| {
        assert r[k] == init[k];
      } else {
        assert r[k] == p;
      }
    }
  }

  /** One more part adds its stripped form, unless that is empty. */
  lemma {:induction false} StrippedNonEmptySnoc(parts: seq<string>, p: string)
    ensures StrippedNonEmpty(parts + [p])
         == StrippedNonEmpty(parts) + (if Strip(p) == [] then [] else [Strip(p)])
  {
    var ps := parts + [p];
    assert ps[..|ps| - 1] == parts && ps[|ps| - 1] == p;
  }

  /** `"".join(ss)`. */
  function Concat(ss: seq<string>): string {
    if ss == [] then [] else ss[0] + Concat(ss[1..])
  }

  lemma {:induction false} ConcatAppend(ss: seq<string>, ts: seq<string>)
    ensures Concat(ss + ts) == Concat(ss) + Concat(ts)
  {
    if ss == [] {
      assert ss + ts == ts;
    } else {
      assert (ss + ts)[1..] == ss[1..] + ts;
      ConcatAppend(ss[1..], ts);
    }
  }

  lemma {:induction false} ConcatSnoc(ss: seq<string>, x: string)
    ensures Concat(ss + [x]) == Concat(ss) + x
  {
    ConcatAppend(ss, [x]);
    assert Concat([x]) == x + Concat([]);
  }

  /** `sep.join(ss)`. */
  function Join(ss: seq<string>, sep: string): string {
    if ss == [] then []
    else if |ss| == 1 then ss[0]
    else ss[0] + sep + Join(ss[1..], sep)
  }

  /** `s.split(sep)` for a non-empty separator: occurrences are taken left to
      right and do not overlap. */
  function SplitOn(s: string, sep: string): (parts: seq<string>)
    requires sep != []
    ensures parts != []
  {
    SplitFrom(s, sep, 0, 0)
  }

  /** The parts of `s[start..]` when the scan for the next occurrence of `sep`
      has reached position `i`. */
  function SplitFrom(s: string, sep: string, start: nat, i: nat): (parts: seq<string>)
    requires sep != [] && start <= i <= |s|
    ensures parts != []
    decreases |s| - i
  {
    if i + |sep| > |s| then [s[start..]]
    else if OccursAt(sep, s, i) then [s[start..i]] + SplitFrom(s, sep, i + |sep|, i + |sep|)
    else SplitFrom(s, sep, start, i + 1)
  }

  lemma {:induction false} SplitFromJoin(s: string, sep: string, start: nat, i: nat)
    requires sep != [] && start <= i <= |s|
    ensures Join(SplitFrom(s, sep, start, i), sep) == s[start..]
    decreases |s| - i
  {
    if i + |sep| > |s| {
      assert SplitFrom(s, sep, start, i) == [s[start..]];
    } else if OccursAt(sep, s, i) {
      var j := i + |sep|;
      var rest := SplitFrom(s, sep, j, j);
      SplitFromJoin(s, sep, j, j);
      SplitFromAtMatch(s, sep, start, i, j);
      JoinCons(s[start..i], rest, sep);
      SliceAround(s, start, i, j);
    } else {
      assert SplitFrom(s, sep, start, i) == SplitFrom(s, sep, start, i + 1);
      SplitFromJoin(s, sep, start, i + 1);
    }
  }

  lemma {:induction false} SliceAround(s: string, start: nat, i: nat, j: nat)
    requires start <= i <= j <= |s|
    ensures s[start..] == s[start..i] + s[i..j] + s[j..]
  {
  }

  lemma {:induction false} JoinCons(x: string, rest: seq<string>, sep: string)
    requires rest != []
    ensures Join([x] + rest, sep) == x + sep + Join(rest, sep)
  {
    assert ([x] + rest)[1..] == rest;
  }

  /** Joining the parts with the separator gives back the string. */
  lemma {:induction false} SplitJoin(s: string, sep: string)
    requires sep != []
    ensures Join(SplitOn(s, sep), sep) == s
  {
    SplitFromJoin(s, sep, 0, 0);
    assert s[0..] == s;
  }

  /** The scan over `p + r` past `p` is the scan over `r`. */
  lemma {:induction false} SplitFromShift(p: string, r: string, sep: string, a: nat, b: nat)
    requires sep != [] && a <= b <= |r|
    ensures SplitFrom(p + r, sep, |p| + a, |p| + b) == SplitFrom(r, sep, a, b)
    decreases |r| - b, 1
  {
    if b + |sep| > |r| {
      assert (p + r)[|p| + a..] == r[a..];
    } else {
      OccursShift(p, r, sep, b);
      SplitFromShiftStep(p, r, sep, a, b);
    }
  }

  /** A separator occurs in `p + r` at `|p| + b` exactly when it occurs in
      `r` at `b`. */
  lemma {:induction false} OccursShift(p: string, r: string, sep: string, b: nat)
    requires b + |sep| <= |r|
    ensures OccursAt(sep, p + r, |p| + b) <==> OccursAt(sep, r, b)
  {
    assert (p + r)[|p| + b..|p| + b + |sep|] == r[b..b + |sep|];
  }

  lemma {:induction false} SplitFromShiftStep(p: string, r: string, sep: string, a: nat, b: nat)
    requires sep != [] && a <= b && b + |sep| <= |r|
    requires OccursAt(sep, p + r, |p| + b) <==> OccursAt(sep, r, b)
    ensures SplitFrom(p + r, sep, |p| + a, |p| + b) == SplitFrom(r, sep, a, b)
    decreases |r| - b, 0
  {
    var s := p + r;
    if OccursAt(sep, r, b) {
      var q := b + |sep|;
      var tail := SplitFrom(r, sep, q, q);
      var part := r[a..b];
      assert SplitFrom(s, sep, |p| + a, |p| + b) == [part] + tail by {
        SplitFromShift(p, r, sep, q, q);
        assert s[|p| + a..|p| + b] == part;
        SplitFromAtMatch(s, sep, |p| + a, |p| + b, |p| + q);
      }
      assert SplitFrom(r, sep, a, b) == [part] + tail by {
        SplitFromAtMatch(r, sep, a, b, q);
      }
    } else {
      SplitFromShift(p, r, sep, a, b + 1);
    }
  }

  /** A separator at the scan position ends the current part. */
  lemma {:induction false} SplitFromAtMatch(s: string, sep: string, start: nat, i: nat, j: nat)
    requires sep != [] && start <= i && j == i + |sep| && OccursAt(sep, s, i)
    ensures SplitFrom(s, sep, start, i) == [s[start..i]] + SplitFrom(s, sep, j, j)
  {
  }

  /** Positions where the separator does not occur are passed over. */
  lemma {:induction false} SplitFromSkip(s: string, sep: string, start: nat, i: nat, j: nat)
    requires sep != [] && start <= i <= j <= |s|
    requires forall k :: i <= k < j ==> !OccursAt(sep, s, k)
    ensures SplitFrom(s, sep, start, i) == SplitFrom(s, sep, start, j)
    decreases j - i
  {
    if i < j {
      assert !OccursAt(sep, s, i);
      SplitFromSkip(s, sep, start, i + 1, j);
    }
  }

  /** When the first occurrence of `sep` in `x + sep + rest` is the one after
      `x`, splitting gives `x` and then the parts of `rest`. */
  lemma {:induction false} SplitOnCons(x: string, sep: string, rest: string)
    requires sep != []
    requires forall k :: 0 <= k < |x| ==> !OccursAt(sep, x + sep + rest, k)
    ensures SplitOn(x + sep + rest, sep) == [x] + SplitOn(rest, sep)
  {
    var p := x + sep;
    var s := p + rest;
    assert s[|x|..|p|] == sep;
    assert OccursAt(sep, s, |x|);
    assert s[..|x|] == x;
    SplitOnFirst(s, sep, |x|, |p|);
    SplitFromShift(p, rest, sep, 0, 0);
    assert SplitFrom(s, sep, |p|, |p|) == SplitFrom(rest, sep, 0, 0);
    assert SplitOn(rest, sep) == SplitFrom(rest, sep, 0, 0);
  }

  /** The first occurrence of `sep` ends the first part. */
  lemma {:induction false} SplitOnFirst(s: string, sep: string, i: nat, j: nat)
    requires sep != [] && j == i + |sep| && OccursAt(sep, s, i)
    requires forall k :: 0 <= k < i ==> !OccursAt(sep, s, k)
    ensures SplitOn(s, sep) == [s[..i]] + SplitFrom(s, sep, j, j)
  {
    SplitFromSkip(s, sep, 0, 0, i);
    SplitFromAtMatch(s, sep, 0, i, j);
    assert s[0..i] == s[..i];
  }

  /** An occurrence of a whitespace separator cannot start inside a
      stripped part that does not contain it, even one running on into the
      separator after it. */
  lemma {:induction false} NoOccurrenceAcross(x: string, sep: string, rest: string, k: nat)
    requires sep != [] && AllSpace(sep)
    requires x != [] && IsStripped(x) && !Occurs(sep, x) && k < |x|
    ensures !OccursAt(sep, x + sep + rest, k)
  {
    var s := x + sep + rest;
    if k + |sep| <= |x| {
      assert s[k..k + |sep|] == x[k..k + |sep|];
      assert !OccursAt(sep, x, k);
    } else if k + |sep| <= |s| {
      var m := |x| - 1 - k;
      assert s[k..k + |sep|][m] == x[|x| - 1];
      assert !IsSpace(x[|x| - 1]) && IsSpace(sep[m]);
    }
  }

  /** Splitting undoes joining when the separator is whitespace and the
      parts are stripped, non-empty and free of it. */
  lemma {:induction false} SplitJoinStripped(parts: seq<string>, sep: string)
    requires sep != [] && AllSpace(sep) && parts != []
    requires forall k :: 0 <= k < |parts| ==> parts[k] != [] && IsStripped(parts[k]) && !Occurs(sep, parts[k])
    ensures SplitOn(Join(parts, sep), sep) == parts
  {
    var x := parts[0];
    if |parts| == 1 {
      SplitFromNoOccurrence(x, sep, 0, 0);
      assert x[0..] == x;
    } else {
      var rest := parts[1..];
      var j := Join(rest, sep);
      forall k | 0 <= k < |x| ensures !OccursAt(sep, x + sep + j, k) {
        NoOccurrenceAcross(x, sep, j, k);
      }
      SplitOnCons(x, sep, j);
      SplitJoinStripped(rest, sep);
      assert parts == [x] + rest;
    }
  }

  /** `s.replace(pat, "")`: every occurrence, taken as `split` takes them, is
      removed. */
  function RemoveAll(s: string, pat: string): string
    requires pat != []
  {
    Concat(SplitOn(s, pat))
  }

  predicate OccursAt(pat: string, s: string, i: nat) {
    i + |pat| <= |s| && s[i..i + |pat|] == pat
  }

  ghost predicate Occurs(pat: string, s: string) {
    exists i: nat :: OccursAt(pat, s, i)
  }

  lemma {:induction false} SplitFromNoOccurrence(s: string, sep: string, start: nat, i: nat)
    requires sep != [] && start <= i <= |s|
    requires !Occurs(sep, s)
    ensures SplitFrom(s, sep, start, i) == [s[start..]]
    decreases |s| - i
  {
    if i + |sep| > |s| {
    } else {
      assert !OccursAt(sep, s, i);
      SplitFromNoOccurrence(s, sep, start, i + 1);
    }
  }

  /** Removing a pattern that does not occur changes nothing. */
  lemma {:induction false} RemoveAllNoOccurrence(s: string, pat: string)
    requires pat != []
    requires !Occurs(pat, s)
    ensures RemoveAll(s, pat) == s
  {
    SplitFromNoOccurrence(s, pat, 0, 0);
    assert s[0..] == s;
    assert Concat([s]) == s + Concat([]);
  }

  /** `a` can be obtained from `b` by deleting characters. */
  predicate IsSubsequence(a: string, b: string)
    decreases |b|
  {
    if a == [] then true
    else if b == [] then false
    else (a[0] == b[0] && IsSubsequence(a[1..], b[1..])) || IsSubsequence(a, b[1..])
  }

  lemma {:induction false} SubsequenceTransitive(a: string, b: string, c: string)
    requires IsSubsequence(a, b) && IsSubsequence(b, c)
    ensures IsSubsequence(a, c)
    decreases |c|
  {
    if a == [] || b == [] {
    } else if IsSubsequence(b, c[1..]) {
      SubsequenceTransitive(a, b, c[1..]);
    } else if a[0] == b[0] && IsSubsequence(a[1..], b[1..]) {
      SubsequenceTransitive(a[1..], b[1..], c[1..]);
    } else {
      SubsequenceTransitive(a, b[1..], c[1..]);
    }
  }

  lemma {:induction false} SubsequenceReflexive(a: string)
    ensures IsSubsequence(a, a)
  {
    if a != [] { SubsequenceReflexive(a[1..]); }
  }

  /** Every slice of a string is a subsequence of it. */
  lemma {:induction false} SliceIsSubsequence(s: string, i: nat, j: nat)
    requires i <= j <= |s|
    ensures IsSubsequence(s[i..j], s)
    decreases |s|
  {
    if i == j {
    } else if i == 0 {
      assert s[i..j][0] == s[0];
      SliceDrop(s, 0, j, 1);
      DropSlice(s, 1, 0, j - 1);
      SliceIsSubsequence(s[1..], 0, j - 1);
    } else {
      DropSlice(s, 1, i - 1, j - 1);
      SliceIsSubsequence(s[1..], i - 1, j - 1);
    }
  }

  /** `strip` only deletes characters. */
  lemma {:induction false} StripIsSubsequence(s: string)
    ensures IsSubsequence(Strip(s), s)
  {
    StripIsSlice(s);
    var lo := |s| - |LStrip(s)|;
    SliceNamedIsSubsequence(Strip(s), s, lo, lo + |Strip(s)|);
  }

  lemma {:induction false} SliceNamedIsSubsequence(t: string, s: string, i: nat, j: nat)
    requires i <= j <= |s| && t == s[i..j]
    ensures IsSubsequence(t, s)
  {
    SliceIsSubsequence(s, i, j);
  }

  /** The last line feed in `s[lo..hi]`, if any. */
  function LastNewline(s: string, lo: nat, hi: nat): (r: Option<nat>)
    requires lo <= hi <= |s|
    ensures r.Some? ==> lo <= r.value < hi && s[r.value] == '\n'
    ensures r.Some? ==> forall k :: r.value < k < hi ==> s[k] != '\n'
    ensures r.None? ==> forall k :: lo <= k < hi ==> s[k] != '\n'
    decreases hi - lo
  {
    if lo == hi then None
    else if s[hi - 1] == '\n' then Some(hi - 1)
    else LastNewline(s, lo, hi - 1)
  }

  /** `s` split at its last line feed into what comes before it and the last
      line. */
  function LastLine(s: string): (r: Option<(string, string)>)
  {
    match LastNewline(s, 0, |s|)
    case None => None
    case Some(k) => Some((s[..k], s[k + 1..]))
  }

  /** Appending a line to a text is undone by `LastLine`. */
  lemma {:induction false} LastLineSnoc(init: string, line: string)
    requires '\n' !in line
    ensures LastLine(init + "\n" + line) == Some((init, line))
  {
    var s := init + "\n" + line;
    assert s[|init|] == '\n';
    forall k | |init| < k < |s| ensures s[k] != '\n' {
      assert s[k] == line[k - |init| - 1];
    }
    var r := LastNewline(s, 0, |s|);
    assert r == Some(|init|);
    assert s[..|init|] == init && s[|init| + 1..] == line;
  }
}
