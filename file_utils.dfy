/** The filename sanitiser used before a downloaded file is written to the
    local disk. */
module FileUtils {
  import opened Text

  /** The characters a sanitised name may contain. */
  predicate Allowed(c: char) {
    IsAlnum(c) || c == ' ' || c == '.' || c == '_' || c == '-'
  }

  /** The allowed characters of `s`, in order. */
  function KeepAllowed(s: string): (r: string)
    ensures |r| <= |s|
    ensures forall k :: 0 <= k < |r| ==> Allowed(r[k])
  {
    if s == [] then []
    else
      var rest := KeepAllowed(s[1..]);
      if Allowed(s[0]) then [s[0]] + rest else rest
  }

  /** `sanitize_filename`. */
  function SanitizeFilename(filename: string): string {
    Strip(KeepAllowed(filename))
  }

  /** Every character of a sanitised name is allowed, and the name has no
      space at either end. */
  lemma {:induction false} SanitizedShape(filename: string)
    ensures var r := SanitizeFilename(filename);
      && (forall k :: 0 <= k < |r| ==> Allowed(r[k]))
      && (r == [] || (r[0] != ' ' && r[|r| - 1] != ' '))
  {
    var kept := KeepAllowed(filename);
    StripIsSlice(kept);
  }

  lemma {:induction false} KeepAllowedSubsequence(s: string)
    ensures IsSubsequence(KeepAllowed(s), s)
  {
    if s != [] {
      KeepAllowedSubsequence(s[1..]);
      var rest := KeepAllowed(s[1..]);
      if Allowed(s[0]) {
        assert ([s[0]] + rest)[0] == s[0] && ([s[0]] + rest)[1..] == rest;
      } else if rest != [] {
        assert IsSubsequence(rest, s[1..]);
      }
    }
  }

  /** The sanitised name is the input with characters deleted: the order of
      what is kept is the input's. */
  lemma {:induction false} SanitizedSubsequence(filename: string)
    ensures IsSubsequence(SanitizeFilename(filename), filename)
  {
    var kept := KeepAllowed(filename);
    var r := Strip(kept);
    StripIsSubsequence(kept);
    assert IsSubsequence(kept, filename) by {
      KeepAllowedSubsequence(filename);
    }
    SubsequenceTransitive(r, kept, filename);
  }

  /** The filter drops a disallowed character and keeps every occurrence of
      an allowed one. */
  lemma {:induction false} KeepAllowedCounts(s: string, c: char)
    ensures multiset(KeepAllowed(s))[c] == if Allowed(c) then multiset(s)[c] else 0
  {
    if s != [] {
      KeepAllowedCounts(s[1..], c);
      assert s == [s[0]] + s[1..];
      assert multiset(s) == multiset([s[0]]) + multiset(s[1..]);
    }
  }

  /** A string of allowed characters passes the filter unchanged. */
  lemma {:induction false} KeepAllowedFixed(s: string)
    requires forall k :: 0 <= k < |s| ==> Allowed(s[k])
    ensures KeepAllowed(s) == s
  {
    if s != [] {
      KeepAllowedFixed(s[1..]);
      assert s == [s[0]] + s[1..];
    }
  }

  /** The only whitespace an allowed name can hold is the space. */
  lemma {:induction false} AllowedStripped(s: string)
    requires forall k :: 0 <= k < |s| ==> Allowed(s[k])
    requires s == [] || (s[0] != ' ' && s[|s| - 1] != ' ')
    ensures IsStripped(s)
  {
  }

  /** A name of allowed characters with no space at either end is already
      sanitised. */
  lemma {:induction false} SanitizeKeepsSafeName(filename: string)
    requires forall k :: 0 <= k < |filename| ==> Allowed(filename[k])
    requires filename == [] || (filename[0] != ' ' && filename[|filename| - 1] != ' ')
    ensures SanitizeFilename(filename) == filename
  {
    KeepAllowedFixed(filename);
    AllowedStripped(filename);
    StripStripped(filename);
  }

  /** Sanitising twice is sanitising once. */
  lemma {:induction false} SanitizeIdempotent(filename: string)
    ensures SanitizeFilename(SanitizeFilename(filename)) == SanitizeFilename(filename)
  {
    SanitizedShape(filename);
    SanitizeKeepsSafeName(SanitizeFilename(filename));
  }
}
