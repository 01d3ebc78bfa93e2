/** The delta-sync orchestrator: it compares the Drive listing with the
    checksum store, and for each new or changed file runs download,
    extraction, chunking, metadata injection and upload, recording the
    checksum only once the upload has succeeded. Drive, OpenAI and the file
    system are parameters: each call into them is given by its outcome. The
    files of a batch are processed one after another. */
module SyncEngine {
  import opened Wrappers
  import opened Text
  import opened FileTable
  import opened MetadataInjector
  import opened Seqs
  import DatabaseDBManager
  import SemanticChunker
  import ExtractionService
  import PdfProcessor

  /** An entry of the Drive listing: `id`, `name` and `md5Checksum`. */
  datatype DriveFile = DriveFile(id: string, name: string, md5Checksum: string)

  // ---------------------------------------------------------------------
  // The delta comparator

  /** A listed file is new, or its checksum differs from the stored one. */
  predicate NeedsSync(table: seq<FileRecord>, f: DriveFile) {
    Get(table, f.id).None? || Get(table, f.id).value.checksum != f.md5Checksum
  }

  /** The files of the listing that need syncing, in listing order. */
  function FilesToProcess(table: seq<FileRecord>, files: seq<DriveFile>): (queue: seq<DriveFile>)
    ensures |queue| <= |files|
    ensures forall f :: f in queue <==> f in files && NeedsSync(table, f)
  {
    if files == [] then []
    else
      var init := files[..|files| - 1];
      var last := files[|files| - 1];
      assert files == init + [last];
      FilesToProcess(table, init) + (if NeedsSync(table, last) then [last] else [])
  }

  /** The comparator looks at each file on its own and keeps listing order:
      the queue of a concatenation is the concatenation of the queues. */
  lemma {:induction false} FilesToProcessAppend(table: seq<FileRecord>, a: seq<DriveFile>, b: seq<DriveFile>)
    ensures FilesToProcess(table, a + b) == FilesToProcess(table, a) + FilesToProcess(table, b)
    decreases |b|
  {
    if b == [] {
      assert a + b == a;
    } else {
      var init := b[..|b| - 1];
      var last := b[|b| - 1];
      assert a + b == (a + init) + [last];
      assert b == init + [last];
      var t := if NeedsSync(table, last) then [last] else [];
      calc {
        FilesToProcess(table, a + b);
        { FilesToProcessSnoc(table, a + init, last); }
        FilesToProcess(table, a + init) + t;
        { FilesToProcessAppend(table, a, init); }
        (FilesToProcess(table, a) + FilesToProcess(table, init)) + t;
        FilesToProcess(table, a) + (FilesToProcess(table, init) + t);
        { FilesToProcessSnoc(table, init, last); }
        FilesToProcess(table, a) + FilesToProcess(table, b);
      }
    }
  }

  lemma {:induction false} FilesToProcessSnoc(table: seq<FileRecord>, init: seq<DriveFile>, last: DriveFile)
    ensures FilesToProcess(table, init + [last])
         == FilesToProcess(table, init) + (if NeedsSync(table, last) then [last] else [])
  {
    var fs := init + [last];
    assert fs[..|fs| - 1] == init && fs[|fs| - 1] == last;
  }

  lemma {:induction false} FilesToProcessStep(table: seq<FileRecord>, files: seq<DriveFile>, i: nat)
    requires i < |files|
    ensures FilesToProcess(table, files[..i + 1])
         == FilesToProcess(table, files[..i]) + (if NeedsSync(table, files[i]) then [files[i]] else [])
  {
    assert files[..i + 1][..i] == files[..i];
  }

  /** The queue is a subsequence of the listing: its `k`-th file is the
      listing's file at `idx[k]`, the positions increase, and every listed
      file that needs syncing is taken. */
  lemma {:induction false} FilesToProcessInOrder(table: seq<FileRecord>, files: seq<DriveFile>) returns (idx: seq<nat>)
    ensures InOrder(table, files, FilesToProcess(table, files), idx)
    decreases |files|
  {
    if files == [] {
      return [];
    }
    var n := |files| - 1;
    var init := files[..n];
    assert files == init + [files[n]];
    var prev := FilesToProcessInOrder(table, init);
    var q := FilesToProcess(table, init);
    assert FilesToProcess(table, files) == q + (if NeedsSync(table, files[n]) then [files[n]] else []);
    idx := InOrderSnoc(table, init, files[n], q, prev);
  }

  /** `idx` picks out `queue` from `files` in increasing positions, taking
      every file that needs syncing. */
  predicate InOrder(table: seq<FileRecord>, files: seq<DriveFile>, queue: seq<DriveFile>, idx: seq<nat>) {
    && |idx| == |queue|
    && (forall k :: 0 <= k < |idx| ==> idx[k] < |files| && files[idx[k]] == queue[k])
    && (forall k, l :: 0 <= k < l < |idx| ==> idx[k] < idx[l])
    && (forall i :: 0 <= i < |files| && NeedsSync(table, files[i]) ==> i in idx)
  }

  lemma {:induction false} InOrderSnoc(table: seq<FileRecord>, init: seq<DriveFile>, last: DriveFile,
                                       q: seq<DriveFile>, prev: seq<nat>) returns (idx: seq<nat>)
    requires InOrder(table, init, q, prev)
    ensures InOrder(table, init + [last], q + (if NeedsSync(table, last) then [last] else []), idx)
  {
    var files := init + [last];
    var n := |init|;
    var queue := q + (if NeedsSync(table, last) then [last] else []);
    var tail: seq<nat> := if NeedsSync(table, last) then [n] else [];
    idx := prev + tail;
    forall k | 0 <= k < |idx| ensures idx[k] < |files| && files[idx[k]] == queue[k] {
      if k < |prev| {
        assert idx[k] == prev[k] && queue[k] == q[k] && files[prev[k]] == init[prev[k]];
      } else {
        assert idx[k] == n && queue[k] == last;
      }
    }
    forall k, l | 0 <= k < l < |idx| ensures idx[k] < idx[l] {
      assert idx[k] == prev[k];
      if l < |prev| {
        assert idx[l] == prev[l];
      } else {
        assert idx[l] == n;
      }
    }
    forall i | 0 <= i < |files| && NeedsSync(table, files[i]) ensures i in idx {
      if i < n {
        assert files[i] == init[i];
        assert i in prev;
      } else {
        assert idx[|prev|] == n;
      }
    }
  }

  /** No two listed files share an id. */
  predicate DistinctIds(files: seq<DriveFile>) {
    forall i, j :: 0 <= i < j < |files| ==> files[i].id != files[j].id
  }

  /** The record a successful sync writes for a file. */
  function RecordOf(f: DriveFile): FileRecord {
    SyncedRecord(f.id, f.name, f.md5Checksum)
  }

  /** The table after recording each of `files`, in order. */
  function RecordAll(table: seq<FileRecord>, files: seq<DriveFile>): seq<FileRecord> {
    if files == [] then table
    else Upsert(RecordAll(table, files[..|files| - 1]), RecordOf(files[|files| - 1]))
  }

  lemma {:induction false} RecordAllSnoc(table: seq<FileRecord>, files: seq<DriveFile>, f: DriveFile)
    ensures RecordAll(table, files + [f]) == Upsert(RecordAll(table, files), RecordOf(f))
  {
    assert (files + [f])[..|files|] == files;
  }

  /** After recording, every recorded id reads back as its record. */
  lemma {:induction false} RecordAllHas(table: seq<FileRecord>, files: seq<DriveFile>, k: nat)
    requires DistinctIds(files) && k < |files|
    ensures Get(RecordAll(table, files), files[k].id) == Some(RecordOf(files[k]))
    decreases |files|
  {
    var init := files[..|files| - 1];
    var last := files[|files| - 1];
    if k == |files| - 1 {
      UpsertReadsBack(RecordAll(table, init), RecordOf(last));
    } else {
      assert files[k].id != last.id;
      assert init[k] == files[k];
      RecordAllHas(table, init, k);
      UpsertOthers(RecordAll(table, init), RecordOf(last), files[k].id);
    }
  }

  /** Recording leaves every other id as it was. */
  lemma {:induction false} RecordAllOthers(table: seq<FileRecord>, files: seq<DriveFile>, id: string)
    requires forall k :: 0 <= k < |files| ==> files[k].id != id
    ensures Get(RecordAll(table, files), id) == Get(table, id)
    decreases |files|
  {
    if files != [] {
      var init := files[..|files| - 1];
      RecordAllOthers(table, init, id);
      UpsertOthers(RecordAll(table, init), RecordOf(files[|files| - 1]), id);
    }
  }

  lemma {:induction false} FilesToProcessDistinct(table: seq<FileRecord>, files: seq<DriveFile>)
    requires DistinctIds(files)
    ensures DistinctIds(FilesToProcess(table, files))
    decreases |files|
  {
    if files != [] {
      var init := files[..|files| - 1];
      var last := files[|files| - 1];
      FilesToProcessDistinct(table, init);
      var q := FilesToProcess(table, init);
      forall g | g in q ensures g.id != last.id {
        var i :| 0 <= i < |init| && init[i] == g;
        assert files[i] == g;
      }
    }
  }

  lemma {:induction false} NothingToProcess(table: seq<FileRecord>, files: seq<DriveFile>)
    requires forall k :: 0 <= k < |files| ==> !NeedsSync(table, files[k])
    ensures FilesToProcess(table, files) == []
    decreases |files|
  {
    if files != [] {
      NothingToProcess(table, files[..|files| - 1]);
    }
  }

  /** Against a store that is up to date with the listing, a listing in
      which one file's checksum has changed queues exactly that file. */
  lemma {:induction false} ChangedChecksumRequeued(table: seq<FileRecord>, files: seq<DriveFile>, i: nat, c: string)
    requires i < |files| && c != files[i].md5Checksum
    requires forall k :: 0 <= k < |files| ==> !NeedsSync(table, files[k])
    ensures FilesToProcess(table, files[i := files[i].(md5Checksum := c)]) == [files[i].(md5Checksum := c)]
  {
    var g := files[i].(md5Checksum := c);
    var before, after := files[..i], files[i + 1..];
    assert files[i := g] == before + [g] + after;
    assert !NeedsSync(table, files[i]);
    assert NeedsSync(table, g);
    forall k | 0 <= k < |before| ensures !NeedsSync(table, before[k]) {
      assert before[k] == files[k];
    }
    forall k | 0 <= k < |after| ensures !NeedsSync(table, after[k]) {
      assert after[k] == files[i + 1 + k];
    }
    OnlyOneQueued(table, before, g, after);
  }

  lemma {:induction false} OnlyOneQueued(table: seq<FileRecord>, before: seq<DriveFile>, g: DriveFile, after: seq<DriveFile>)
    requires forall k :: 0 <= k < |before| ==> !NeedsSync(table, before[k])
    requires forall k :: 0 <= k < |after| ==> !NeedsSync(table, after[k])
    requires NeedsSync(table, g)
    ensures FilesToProcess(table, before + [g] + after) == [g]
  {
    NothingToProcess(table, before);
    NothingToProcess(table, after);
    FilesToProcessAppend(table, before + [g], after);
    assert FilesToProcess(table, before + [g]) == FilesToProcess(table, before) + [g] by {
      assert (before + [g])[..|before|] == before;
    }
  }

  /** Once every queued file has been recorded with its checksum, comparing
      the same listing again queues nothing, provided its ids are distinct. */
  lemma {:induction false} ResyncFindsNothing(table: seq<FileRecord>, files: seq<DriveFile>)
    requires DistinctIds(files)
    ensures var queue := FilesToProcess(table, files);
      FilesToProcess(RecordAll(table, queue), files) == []
  {
    var queue := FilesToProcess(table, files);
    var after := RecordAll(table, queue);
    FilesToProcessDistinct(table, files);
    forall k | 0 <= k < |files| ensures !NeedsSync(after, files[k]) {
      var f := files[k];
      if f in queue {
        var j :| 0 <= j < |queue| && queue[j] == f;
        RecordAllHas(table, queue, j);
      } else {
        forall j | 0 <= j < |queue| ensures queue[j].id != f.id {
          assert queue[j] in queue;
          var i :| 0 <= i < |files| && files[i] == queue[j];
          assert i != k;
        }
        RecordAllOthers(table, queue, f.id);
      }
    }
    NothingToProcess(after, files);
  }

  // ---------------------------------------------------------------------
  // The file-name pattern `^(?:(\d{4})\s*-\s*)?(?:(.*?)\s*-\s*)?(.*)$`

  /** Its three groups; a group that takes no part in the match is `None`. */
  datatype FilenameGroups = FilenameGroups(year: Option<string>, author: Option<string>, title: string)

  /** `\s*-` matches at `i`: whitespace, then a hyphen. */
  predicate HyphenAt(s: string, i: nat)
    requires i <= |s|
  {
    var j := SpaceRunEnd(s, i);
    j < |s| && s[j] == '-'
  }

  /** Where `\s*-\s*` ends when it matches at `i`. */
  function HyphenEnd(s: string, i: nat): (e: nat)
    requires i <= |s| && HyphenAt(s, i)
    ensures i < e <= |s|
    ensures e == |s| || !IsSpace(s[e])
  {
    SpaceRunEnd(s, SpaceRunEnd(s, i) + 1)
  }

  /** `(\d{4})\s*-\s*` matches at the start. */
  predicate HasYearPrefix(s: string) {
    |s| >= 4 && AllDigits(s[..4]) && HyphenAt(s, 4)
  }

  /** Where the lazy `(.*?)` that starts at `i` stops: the first position
      from which `\s*-` matches, if any. */
  function AuthorStop(s: string, i: nat): (p: Option<nat>)
    requires i <= |s|
    ensures p.Some? ==> i <= p.value < |s| && HyphenAt(s, p.value)
    ensures forall k :: i <= k <= |s| && (p.None? || k < p.value) ==> !HyphenAt(s, k)
    decreases |s| - i
  {
    if HyphenAt(s, i) then Some(i)
    else if i == |s| then None
    else AuthorStop(s, i + 1)
  }

  /** Where the author group starts: after the year prefix, if any. */
  function AuthorStart(s: string): (a: nat)
    ensures a <= |s|
  {
    if HasYearPrefix(s) then HyphenEnd(s, 4) else 0
  }

  /** `re.match` of the pattern. `(.*)$` takes whatever is left, so the
      match always succeeds, each optional group takes part whenever it can,
      and the lazy group stops at the first hyphen. */
  function MatchFilename(s: string): FilenameGroups {
    var a := AuthorStart(s);
    var year := if HasYearPrefix(s) then Some(s[..4]) else None;
    match AuthorStop(s, a)
    case Some(p) => FilenameGroups(year, Some(s[a..p]), s[HyphenEnd(s, p)..])
    case None => FilenameGroups(year, None, s[a..])
  }

  /** A position that is not whitespace and holds a hyphen is one where
      `\s*-` matches. */
  lemma {:induction false} NoHyphenInAuthor(s: string, a: nat, p: nat)
    requires a <= p <= |s|
    requires forall k :: a <= k < p ==> !HyphenAt(s, k)
    ensures forall k :: a <= k < p ==> s[k] != '-'
  {
    forall k | a <= k < p ensures s[k] != '-' {
      assert !HyphenAt(s, k);
      assert SpaceRunEnd(s, k) == if IsSpace(s[k]) then SpaceRunEnd(s, k + 1) else k;
    }
  }

  /** Whitespace just before a place where `\s*-` matches would let it
      match one position earlier. */
  lemma {:induction false} NonSpaceBeforeHyphen(s: string, i: nat)
    requires i < |s| && !HyphenAt(s, i) && HyphenAt(s, i + 1)
    ensures !IsSpace(s[i])
  {
    assert SpaceRunEnd(s, i) == if IsSpace(s[i]) then SpaceRunEnd(s, i + 1) else i;
  }

  /** The four digits of a year prefix are already stripped. */
  lemma {:induction false} YearDigits(s: string)
    requires HasYearPrefix(s)
    ensures Strip(s[..4]) == s[..4]
  {
    var y := s[..4];
    assert IsStripped(y) by { assert IsDigit(y[0]) && IsDigit(y[3]); }
    StripStripped(y);
  }

  /** A non-empty author group, stripped, is non-empty and holds no hyphen. */
  lemma {:induction false} AuthorGroup(s: string, a: nat, p: nat)
    requires a < p <= |s|
    requires forall k :: a <= k < p ==> !HyphenAt(s, k)
    requires p < |s| && HyphenAt(s, p)
    ensures HyphenFree(s[a..p]) && !AllSpace(s[a..p])
  {
    var v := s[a..p];
    NoHyphenInAuthor(s, a, p);
    forall k | 0 <= k < |v| ensures v[k] != '-' {
      assert v[k] == s[a + k];
    }
    NonSpaceBeforeHyphen(s, p - 1);
    assert v[|v| - 1] == s[p - 1];
  }

  predicate HyphenFree(s: string) {
    forall k :: 0 <= k < |s| ==> s[k] != '-'
  }

  /** What the groups of any match look like: a year of four digits, and an
      author that, stripped, is non-empty and free of hyphens. */
  predicate GroupsShape(g: FilenameGroups) {
    && (g.year.Some? ==> |g.year.value| == 4 && AllDigits(g.year.value))
    && (g.author.Some? && g.author.value != [] ==> HyphenFree(g.author.value) && !AllSpace(g.author.value))
  }

  lemma {:induction false} MatchShape(s: string)
    ensures GroupsShape(MatchFilename(s))
  {
    var g := MatchFilename(s);
    assert g.year.Some? ==> |g.year.value| == 4 && AllDigits(g.year.value) by {
      MatchYear(s);
    }
    var a := AuthorStart(s);
    assert g.author.Some? && g.author.value != [] ==> HyphenFree(g.author.value) && !AllSpace(g.author.value) by {
      match AuthorStop(s, a)
      case Some(p) =>
        assert g.author == Some(s[a..p]);
        if a < p {
          AuthorGroup(s, a, p);
        }
      case None =>
        assert g.author == None;
    }
  }

  /** The conditional logic after the match: a truthy group overrides its
      default, and an author with no title after it becomes the title. */
  function FieldsOfGroups(g: FilenameGroups, clean: string): PdfProcessor.FilenameFields {
    var year := if g.year.Some? && g.year.value != [] then Strip(g.year.value) else Unknown;
    var hasAuthor := g.author.Some? && g.author.value != [];
    if g.title != [] then
      PdfProcessor.FilenameFields(year, if hasAuthor then Strip(g.author.value) else Unknown, Strip(g.title))
    else if hasAuthor then PdfProcessor.FilenameFields(year, Unknown, Strip(g.author.value))
    else PdfProcessor.FilenameFields(year, Unknown, clean)
  }

  /** `_parse_filename_metadata`: the year, author and title of a file
      name, as the fields the injector receives. */
  function ParseFilenameMetadata(filename: string): PdfProcessor.FilenameFields {
    var clean := PdfProcessor.CleanName(filename);
    FieldsOfGroups(MatchFilename(clean), clean)
  }

  /** Whatever the name, the year is `Unknown` or four digits, and the
      author is `Unknown` or non-empty text without a hyphen. */
  lemma {:induction false} ParsedShape(filename: string)
    ensures var f := ParseFilenameMetadata(filename);
      && (f.year == Unknown || (|f.year| == 4 && AllDigits(f.year)))
      && (f.author == Unknown || (f.author != [] && HyphenFree(f.author)))
  {
    var clean := PdfProcessor.CleanName(filename);
    MatchShape(clean);
    FieldsShape(MatchFilename(clean), clean);
  }

  lemma {:induction false} FieldsShape(g: FilenameGroups, clean: string)
    requires GroupsShape(g)
    ensures var f := FieldsOfGroups(g, clean);
      && (f.year == Unknown || (|f.year| == 4 && AllDigits(f.year)))
      && (f.author == Unknown || (f.author != [] && HyphenFree(f.author)))
  {
    var f := FieldsOfGroups(g, clean);
    assert f.year == Unknown || (|f.year| == 4 && AllDigits(f.year)) by {
      FieldsYear(g, clean);
      if g.year.Some? {
        YearStripped(g.year.value);
      }
    }
    assert f.author == Unknown || (f.author != [] && HyphenFree(f.author)) by {
      FieldsAuthor(g, clean);
      if g.author.Some? && g.author.value != [] {
        StripKeepsAbsent(g.author.value, '-');
        StripEmpty(g.author.value);
      }
    }
  }

  /** The author is the stripped author group when that group is truthy and
      a title follows, and `Unknown` otherwise. */
  lemma {:induction false} FieldsAuthor(g: FilenameGroups, clean: string)
    ensures var f := FieldsOfGroups(g, clean);
      f.author == if g.title != [] && g.author.Some? && g.author.value != [] then Strip(g.author.value) else Unknown
  {
  }

  /** Every branch after the match takes the year from the year group. */
  lemma {:induction false} FieldsYear(g: FilenameGroups, clean: string)
    ensures FieldsOfGroups(g, clean).year == if g.year.Some? && g.year.value != [] then Strip(g.year.value) else Unknown
  {
    var year := if g.year.Some? && g.year.value != [] then Strip(g.year.value) else Unknown;
    var f := FieldsOfGroups(g, clean);
    if g.title != [] {
      assert f.year == year;
    } else if g.author.Some? && g.author.value != [] {
      assert f.year == year;
    } else {
      assert f.year == year;
    }
  }

  /** The year group takes part exactly when the name has a year prefix. */
  lemma {:induction false} MatchYear(s: string)
    ensures MatchFilename(s).year == if HasYearPrefix(s) then Some(s[..4]) else None
  {
    match AuthorStop(s, AuthorStart(s))
    case Some(p) =>
    case None =>
  }

  /** The year is the first four characters of the cleaned name exactly
      when they are digits followed by optional whitespace and a hyphen;
      otherwise it is unknown. */
  lemma {:induction false} YearIff(filename: string)
    ensures var clean := PdfProcessor.CleanName(filename);
      var f := ParseFilenameMetadata(filename);
      && (f.year != Unknown <==> HasYearPrefix(clean))
      && (HasYearPrefix(clean) ==> f.year == clean[..4])
  {
    var clean := PdfProcessor.CleanName(filename);
    YearOfClean(clean);
    if HasYearPrefix(clean) {
      YearNotUnknown(clean[..4]);
    }
  }

  lemma {:induction false} YearOfClean(clean: string)
    ensures HasYearPrefix(clean) ==> FieldsOfGroups(MatchFilename(clean), clean).year == clean[..4]
    ensures !HasYearPrefix(clean) ==> FieldsOfGroups(MatchFilename(clean), clean).year == Unknown
  {
    var g := MatchFilename(clean);
    MatchYear(clean);
    FieldsYear(g, clean);
    if HasYearPrefix(clean) {
      YearDigits(clean);
      var y := clean[..4];
      assert g.year == Some(y) && y != [];
      assert FieldsOfGroups(g, clean).year == Strip(y);
    }
  }

  /** No four-character year reads as the placeholder. */
  lemma {:induction false} YearNotUnknown(y: string)
    requires |y| == 4
    ensures y != Unknown
  {
    UnknownLength();
  }

  lemma {:induction false} UnknownLength()
    ensures |Unknown| == 7
  {
  }

  /** ` - ` at `i`, followed by the end or by a non-whitespace character,
      is where `\s*-\s*` matches and ends three characters on. */
  lemma {:induction false} SeparatorAt(s: string, i: nat)
    requires i + 3 <= |s| && s[i..i + 3] == PdfProcessor.Separator
    requires i + 3 == |s| || !IsSpace(s[i + 3])
    ensures HyphenAt(s, i) && HyphenEnd(s, i) == i + 3
  {
    assert s[i] == ' ' && s[i + 1] == '-' && s[i + 2] == ' ';
    assert s[i..i + 1] == [s[i]] && s[i + 2..i + 3] == [s[i + 2]];
    SpaceRunEndAt(s, i, i + 1);
    SpaceRunEndAt(s, i + 2, i + 3);
  }

  /** The lazy group stops at the first place `\s*-` matches: with no
      hyphen before `p` and no whitespace just before it, that is `p`. */
  lemma {:induction false} AuthorStopAt(s: string, i: nat, p: nat)
    requires i <= p <= |s| && HyphenAt(s, p)
    requires forall k :: i <= k < p ==> s[k] != '-'
    requires p == i || !IsSpace(s[p - 1])
    ensures AuthorStop(s, i) == Some(p)
    decreases p - i
  {
    if i < p {
      SpaceRunEndBound(s, i, p - 1);
      AuthorStopAt(s, i + 1, p);
    }
  }

  /** With no hyphen from `i` on, the author group takes no part. */
  lemma {:induction false} AuthorStopNone(s: string, i: nat)
    requires i <= |s|
    requires forall k :: i <= k < |s| ==> s[k] != '-'
    ensures AuthorStop(s, i) == None
    decreases |s| - i
  {
    if i < |s| {
      AuthorStopNone(s, i + 1);
    }
  }

  /** Four leading digits are what the year group needs. */
  predicate YearLike(s: string) {
    |s| >= 4 && AllDigits(s[..4])
  }

  /** A name that starts with text that is not year-like, followed by a
      space, has no year prefix. */
  lemma {:induction false} NoYearPrefix(x: string, rest: string)
    requires !YearLike(x)
    requires rest != [] && rest[0] == ' '
    ensures !HasYearPrefix(x + rest)
  {
    var s := x + rest;
    if |s| >= 4 {
      if |x| >= 4 {
        assert s[..4] == x[..4];
      } else {
        assert s[..4][|x|] == ' ';
        assert !IsDigit(s[..4][|x|]);
      }
    }
  }

  lemma {:induction false} YearStripped(year: string)
    requires |year| == 4 && AllDigits(year)
    ensures Strip(year) == year
  {
    assert IsDigit(year[0]) && IsDigit(year[3]);
    StripStripped(year);
  }

  lemma {:induction false} StrippedEnds(x: string)
    requires x != [] && IsStripped(x)
    ensures !IsSpace(x[0]) && !IsSpace(x[|x| - 1])
  {
  }

  /** How the pattern splits `YYYY - Author - Title`. */
  lemma {:induction false} MatchYearAuthorTitle(year: string, author: string, title: string)
    requires |year| == 4 && AllDigits(year)
    requires author != [] && IsStripped(author) && HyphenFree(author)
    requires title != [] && IsStripped(title)
    ensures MatchFilename(year + PdfProcessor.Separator + author + PdfProcessor.Separator + title)
         == FilenameGroups(Some(year), Some(author), title)
  {
    var sep := PdfProcessor.Separator;
    var s := year + sep + author + sep + title;
    StrippedEnds(author);
    StrippedEnds(title);
    var p := 7 + |author|;
    YearAuthorTitleLayout(year, author, title);
    assert s[7] == s[7..p][0] == author[0];
    SeparatorAt(s, 4);
    assert AuthorStart(s) == 7;
    assert s[p + 3] == s[p + 3..][0] == title[0];
    assert s[p - 1] == s[7..p][|author| - 1] == author[|author| - 1];
    SeparatorAt(s, p);
    forall k | 7 <= k < p ensures s[k] != '-' {
      assert s[k] == s[7..p][k - 7] == author[k - 7];
    }
    AuthorStopAt(s, 7, p);
  }

  lemma {:induction false} YearAuthorTitleLayout(year: string, author: string, title: string)
    requires |year| == 4
    ensures var sep := PdfProcessor.Separator;
      var s := year + sep + author + sep + title;
      var p := 7 + |author|;
      && |s| == p + 3 + |title|
      && s[..4] == year && s[4..7] == sep && s[7..p] == author
      && s[p..p + 3] == sep && s[p + 3..] == title
  {
  }

  /** `YYYY - Author - Title.pdf` reads back as its three parts when the
      author has no hyphen and nothing has stray whitespace; the title may
      hold further hyphens. */
  lemma {:induction false} ParseYearAuthorTitle(year: string, author: string, title: string)
    requires |year| == 4 && AllDigits(year)
    requires author != [] && IsStripped(author) && HyphenFree(author)
    requires title != [] && IsStripped(title)
    requires !Occurs(PdfProcessor.PdfExtension, year + PdfProcessor.Separator + author + PdfProcessor.Separator + title)
    ensures ParseFilenameMetadata(year + PdfProcessor.Separator + author + PdfProcessor.Separator + title + PdfProcessor.PdfExtension)
         == PdfProcessor.FilenameFields(year, author, title)
  {
    var sep := PdfProcessor.Separator;
    var s := year + sep + author + sep + title;
    StrippedEnds(title);
    assert IsDigit(year[0]);
    PdfProcessor.StemStripped(year, sep + author + sep, title);
    assert year + (sep + author + sep) + title == s;
    PdfProcessor.CleanStem(s);
    MatchYearAuthorTitle(year, author, title);
    YearStripped(year);
    StripStripped(author);
    StripStripped(title);
  }

  /** How the pattern splits `Author - Title` when the author is not
      year-like. */
  lemma {:induction false} MatchAuthorTitle(author: string, title: string)
    requires author != [] && IsStripped(author) && HyphenFree(author) && !YearLike(author)
    requires title != [] && IsStripped(title)
    ensures MatchFilename(author + PdfProcessor.Separator + title) == FilenameGroups(None, Some(author), title)
  {
    var sep := PdfProcessor.Separator;
    var s := author + sep + title;
    StrippedEnds(author);
    StrippedEnds(title);
    var p := |author|;
    assert s == author + (sep + title);
    NoYearPrefix(author, sep + title);
    assert s[..p] == author;
    assert s[p..p + 3] == sep && s[p + 3] == title[0] && s[p - 1] == author[p - 1];
    SeparatorAt(s, p);
    forall k | 0 <= k < p ensures s[k] != '-' {
      assert s[k] == author[k];
    }
    AuthorStopAt(s, 0, p);
    assert s[0..p] == author;
    assert s[p + 3..] == title;
  }

  /** `Author - Title.pdf`, with an author that does not start with four
      digits, reads back with an unknown year. */
  lemma {:induction false} ParseAuthorTitle(author: string, title: string)
    requires author != [] && IsStripped(author) && HyphenFree(author) && !YearLike(author)
    requires title != [] && IsStripped(title)
    requires !Occurs(PdfProcessor.PdfExtension, author + PdfProcessor.Separator + title)
    ensures ParseFilenameMetadata(author + PdfProcessor.Separator + title + PdfProcessor.PdfExtension)
         == PdfProcessor.FilenameFields(Unknown, author, title)
  {
    var sep := PdfProcessor.Separator;
    var s := author + sep + title;
    StrippedEnds(author);
    StrippedEnds(title);
    PdfProcessor.StemStripped(author, sep, title);
    PdfProcessor.CleanStem(s);
    assert PdfProcessor.CleanName(s + PdfProcessor.PdfExtension) == s;
    MatchAuthorTitle(author, title);
    var g := MatchFilename(s);
    StripStripped(author);
    StripStripped(title);
    FieldsYear(g, s);
    FieldsAuthor(g, s);
    assert FieldsOfGroups(g, s).title == Strip(title);
  }

  /** How the pattern splits `YYYY - Title` when the title has no hyphen. */
  lemma {:induction false} MatchYearTitle(year: string, title: string)
    requires |year| == 4 && AllDigits(year)
    requires title != [] && IsStripped(title) && HyphenFree(title)
    ensures MatchFilename(year + PdfProcessor.Separator + title) == FilenameGroups(Some(year), None, title)
  {
    var sep := PdfProcessor.Separator;
    var s := year + sep + title;
    StrippedEnds(title);
    assert s[..4] == year && s[4..7] == sep && s[7] == title[0];
    SeparatorAt(s, 4);
    assert AuthorStart(s) == 7;
    forall k | 7 <= k < |s| ensures s[k] != '-' {
      assert s[k] == title[k - 7];
    }
    AuthorStopNone(s, 7);
    assert s[7..] == title;
  }

  /** `YYYY - Title.pdf` with no hyphen in the title reads back with an
      unknown author. */
  lemma {:induction false} ParseYearTitle(year: string, title: string)
    requires |year| == 4 && AllDigits(year)
    requires title != [] && IsStripped(title) && HyphenFree(title)
    requires !Occurs(PdfProcessor.PdfExtension, year + PdfProcessor.Separator + title)
    ensures ParseFilenameMetadata(year + PdfProcessor.Separator + title + PdfProcessor.PdfExtension)
         == PdfProcessor.FilenameFields(year, Unknown, title)
  {
    var sep := PdfProcessor.Separator;
    var s := year + sep + title;
    StrippedEnds(title);
    assert IsDigit(year[0]);
    PdfProcessor.StemStripped(year, sep, title);
    PdfProcessor.CleanStem(s);
    MatchYearTitle(year, title);
    YearStripped(year);
    StripStripped(title);
  }

  /** A cleaned name with no hyphen at all is all title. */
  lemma {:induction false} ParseNoHyphen(filename: string)
    requires HyphenFree(PdfProcessor.CleanName(filename))
    ensures ParseFilenameMetadata(filename) == PdfProcessor.FilenameFields(Unknown, Unknown, PdfProcessor.CleanName(filename))
  {
    var s := PdfProcessor.CleanName(filename);
    assert !HasYearPrefix(s) by {
      if |s| >= 4 {
        var j := SpaceRunEnd(s, 4);
        assert j < |s| ==> s[j] != '-';
      }
    }
    AuthorStopNone(s, 0);
    assert s[0..] == s;
    StripStripped(s);
  }

  /** How the pattern splits `Author -`: the hyphen at the end leaves an
      empty title. */
  lemma {:induction false} MatchAuthorOnly(author: string)
    requires author != [] && IsStripped(author) && HyphenFree(author) && !YearLike(author)
    ensures MatchFilename(author + " -") == FilenameGroups(None, Some(author), [])
  {
    var s := author + " -";
    StrippedEnds(author);
    var p := |author|;
    NoYearPrefix(author, " -");
    assert s[..p] == author && s[p - 1] == author[p - 1];
    assert s[p..p + 1] == [s[p]] && s[p] == ' ' && s[p + 1] == '-';
    SpaceRunEndAt(s, p, p + 1);
    SpaceRunEndAt(s, p + 2, p + 2);
    forall k | 0 <= k < p ensures s[k] != '-' {
      assert s[k] == author[k];
    }
    AuthorStopAt(s, 0, p);
    assert s[0..p] == author;
  }

  /** `Author -.pdf`: when no title follows the hyphen, the author text
      becomes the title and the author is unknown. */
  lemma {:induction false} ParseAuthorOnly(author: string)
    requires author != [] && IsStripped(author) && HyphenFree(author) && !YearLike(author)
    requires !Occurs(PdfProcessor.PdfExtension, author + " -")
    ensures ParseFilenameMetadata(author + " -" + PdfProcessor.PdfExtension)
         == PdfProcessor.FilenameFields(Unknown, Unknown, author)
  {
    var s := author + " -";
    StrippedEnds(author);
    assert s[|s| - 1] == '-' && s[0] == author[0];
    PdfProcessor.CleanStem(s);
    MatchAuthorOnly(author);
    StripStripped(author);
  }

  // ---------------------------------------------------------------------
  // The per-file pipeline

  /** What separates the enriched chunks of the uploaded document. */
  const DocumentSeparator: string := "\n\n"

  /** How each outside call of `_process_single_file` turns out for one
      file: the download gives a local path (the empty path is falsy) or
      raises; the path exists or not; PyMuPDF gives the document's blocks or
      raises; the processed text is written or the write raises; the upload
      gives its status or raises; the database write succeeds or raises. */
  datatype FileEffects = FileEffects(
    download: Attempt<string>,
    pdfExists: bool,
    doc: Attempt<seq<seq<ExtractionService.Block>>>,
    writeOk: bool,
    upload: Attempt<bool>,
    dbWriteOk: bool)

  /** The processed text reaches the upload. */
  predicate Uploads(e: FileEffects) {
    && e.download.Returned? && e.download.value != []
    && e.pdfExists && e.doc.Returned?
    && e.writeOk
  }

  /** Every step succeeds, so the file is recorded. */
  predicate Succeeds(e: FileEffects) {
    Uploads(e) && e.upload.Returned? && e.upload.value && e.dbWriteOk
  }

  /** `inject_metadata` with the file's fields and a page's printed number. */
  function Enrich(fields: PdfProcessor.FilenameFields, page: string): string -> string {
    chunk => InjectMetadata(chunk, PdfProcessor.PageMetadata(fields, page))
  }

  /** The enriched chunks of one page. */
  function PageBlocks(page: ExtractionService.ExtractedPage, fields: PdfProcessor.FilenameFields, max: int): seq<string> {
    Map(Enrich(fields, page.internalPageNumber), SemanticChunker.Chunks(page.text, max))
  }

  /** `final_text_blocks`: the enriched chunks of every page, in page order. */
  function DocumentBlocks(pages: seq<ExtractionService.ExtractedPage>, fields: PdfProcessor.FilenameFields, max: int): seq<string> {
    if pages == [] then []
    else DocumentBlocks(pages[..|pages| - 1], fields, max) + PageBlocks(pages[|pages| - 1], fields, max)
  }

  /** `total_chunks`: the number of chunks over all pages. */
  function TotalChunks(pages: seq<ExtractionService.ExtractedPage>, max: int): nat {
    if pages == [] then 0
    else TotalChunks(pages[..|pages| - 1], max) + |SemanticChunker.Chunks(pages[|pages| - 1].text, max)|
  }

  /** The text written to the processed file and uploaded. */
  function DocumentText(pages: seq<ExtractionService.ExtractedPage>, fields: PdfProcessor.FilenameFields, max: int): string {
    Join(DocumentBlocks(pages, fields, max), DocumentSeparator)
  }

  lemma {:induction false} DocumentStep(pages: seq<ExtractionService.ExtractedPage>, fields: PdfProcessor.FilenameFields, max: int, i: nat)
    requires i < |pages|
    ensures DocumentBlocks(pages[..i + 1], fields, max) == DocumentBlocks(pages[..i], fields, max) + PageBlocks(pages[i], fields, max)
    ensures TotalChunks(pages[..i + 1], max) == TotalChunks(pages[..i], max) + |SemanticChunker.Chunks(pages[i].text, max)|
  {
    assert pages[..i + 1][..i] == pages[..i];
  }

  /** One enriched block per chunk: `total_chunks` counts the blocks. */
  lemma {:induction false} DocumentBlocksCount(pages: seq<ExtractionService.ExtractedPage>, fields: PdfProcessor.FilenameFields, max: int)
    ensures |DocumentBlocks(pages, fields, max)| == TotalChunks(pages, max)
    decreases |pages|
  {
    if pages != [] {
      DocumentBlocksCount(pages[..|pages| - 1], fields, max);
    }
  }

  /** The shape of every guessed page number. */
  predicate GuessShape(g: string) {
    g == Unknown || (g != [] && AllDigits(g))
  }

  /** The file's fields fit on one line each. */
  predicate SingleLineFields(fields: PdfProcessor.FilenameFields) {
    '\n' !in fields.title && '\n' !in fields.author && '\n' !in fields.year
  }

  /** On one page, the `k`-th block reads back as the `k`-th chunk with the
      file's title, author and year and the page's printed number. */
  lemma {:induction false} PageBlocksReadBack(page: ExtractionService.ExtractedPage, fields: PdfProcessor.FilenameFields, max: int, k: nat)
    requires GuessShape(page.internalPageNumber) && SingleLineFields(fields)
    requires k < |SemanticChunker.Chunks(page.text, max)|
    ensures ReadBlock(PageBlocks(page, fields, max)[k])
         == Some((SemanticChunker.Chunks(page.text, max)[k],
                  ChunkMetadata(fields.title, fields.author, fields.year, page.internalPageNumber)))
  {
    var chunks := SemanticChunker.Chunks(page.text, max);
    var c := chunks[k];
    var g := page.internalPageNumber;
    assert PageBlocks(page, fields, max)[k] == InjectMetadata(c, PdfProcessor.PageMetadata(fields, g));
    SemanticChunker.ChunksProperties(page.text, max);
    assert c in chunks;
    assert !AllSpace(c) by { assert !IsSpace(c[0]); }
    StripStripped(c);
    PdfProcessor.EntryMetadata(fields, g);
    PdfProcessor.GuessSingleLine(g);
    InjectRoundTrip(c, PdfProcessor.PageMetadata(fields, g));
  }

  /** `block` reads back as the `k`-th chunk of `page` with the file's
      fields and the page's printed number. */
  predicate ReadsAsChunk(block: string, page: ExtractionService.ExtractedPage, fields: PdfProcessor.FilenameFields, max: int, k: int) {
    var chunks := SemanticChunker.Chunks(page.text, max);
    && 0 <= k < |chunks|
    && ReadBlock(block) == Some((chunks[k], ChunkMetadata(fields.title, fields.author, fields.year, page.internalPageNumber)))
  }

  /** Every block of the document is a block of one of its pages. */
  lemma {:induction false} DocumentBlockOrigin(pages: seq<ExtractionService.ExtractedPage>, fields: PdfProcessor.FilenameFields, max: int, b: nat)
    returns (i: nat, k: nat)
    requires b < |DocumentBlocks(pages, fields, max)|
    ensures i < |pages| && k < |SemanticChunker.Chunks(pages[i].text, max)|
    ensures DocumentBlocks(pages, fields, max)[b] == PageBlocks(pages[i], fields, max)[k]
    decreases |pages|
  {
    var n := |pages| - 1;
    var init := pages[..n];
    var head := DocumentBlocks(init, fields, max);
    var last := PageBlocks(pages[n], fields, max);
    assert DocumentBlocks(pages, fields, max) == head + last;
    if b < |head| {
      i, k := DocumentBlockOrigin(init, fields, max, b);
      assert init[i] == pages[i];
    } else {
      DocumentBlocksCount(init, fields, max);
      i, k := n, b - |head|;
    }
  }

  /** Every block of the uploaded document reads back as a chunk of some
      page, with the file's fields and that page's printed number. */
  lemma {:induction false} DocumentBlocksReadBack(pages: seq<ExtractionService.ExtractedPage>, fields: PdfProcessor.FilenameFields, max: int, b: nat)
    requires forall i :: 0 <= i < |pages| ==> GuessShape(pages[i].internalPageNumber)
    requires SingleLineFields(fields)
    requires b < |DocumentBlocks(pages, fields, max)|
    ensures exists i, k :: 0 <= i < |pages| && ReadsAsChunk(DocumentBlocks(pages, fields, max)[b], pages[i], fields, max, k)
  {
    var i, k := DocumentBlockOrigin(pages, fields, max, b);
    PageBlocksReadBack(pages[i], fields, max, k);
    assert ReadsAsChunk(DocumentBlocks(pages, fields, max)[b], pages[i], fields, max, k);
  }

  /** The page numbers the extractor guesses all have the guess's shape. */
  lemma {:induction false} ExtractedGuesses(doc: seq<seq<ExtractionService.Block>>)
    ensures var pages := ExtractionService.ExtractedPages(doc);
      forall i :: 0 <= i < |pages| ==> GuessShape(pages[i].internalPageNumber)
  {
    var pages := ExtractionService.ExtractedPages(doc);
    forall i | 0 <= i < |pages| ensures GuessShape(pages[i].internalPageNumber) {
      assert pages[i] == ExtractionService.PageRecord(i, doc[i]);
    }
  }

  /** The files of a batch whose processing succeeds, in batch order. */
  function Succeeded(files: seq<DriveFile>, outcome: DriveFile -> FileEffects): (done: seq<DriveFile>)
    ensures |done| <= |files|
  {
    if files == [] then []
    else
      var init := files[..|files| - 1];
      var last := files[|files| - 1];
      assert files == init + [last];
      Succeeded(init, outcome) + (if Succeeds(outcome(last)) then [last] else [])
  }

  /** Exactly the files of the batch that succeed are recorded. */
  lemma {:induction false} SucceededMembers(files: seq<DriveFile>, outcome: DriveFile -> FileEffects, f: DriveFile)
    ensures f in Succeeded(files, outcome) <==> f in files && Succeeds(outcome(f))
    decreases |files|
  {
    if files != [] {
      var init := files[..|files| - 1];
      var last := files[|files| - 1];
      assert files == init + [last];
      SucceededMembers(init, outcome, f);
    }
  }

  lemma {:induction false} SucceededStep(files: seq<DriveFile>, outcome: DriveFile -> FileEffects, i: nat)
    requires i < |files|
    ensures Succeeded(files[..i + 1], outcome)
         == Succeeded(files[..i], outcome) + (if Succeeds(outcome(files[i])) then [files[i]] else [])
  {
    assert files[..i + 1][..i] == files[..i];
  }

  /** When every file succeeds, every file is recorded. */
  lemma {:induction false} AllSucceeded(files: seq<DriveFile>, outcome: DriveFile -> FileEffects)
    requires forall k :: 0 <= k < |files| ==> Succeeds(outcome(files[k]))
    ensures Succeeded(files, outcome) == files
    decreases |files|
  {
    if files != [] {
      var init := files[..|files| - 1];
      AllSucceeded(init, outcome);
      assert files == init + [files[|files| - 1]];
    }
  }

  /** The number of `true` results. */
  function CountTrue(results: seq<bool>): (n: nat)
    ensures n <= |results|
  {
    if results == [] then 0
    else CountTrue(results[..|results| - 1]) + (if results[|results| - 1] then 1 else 0)
  }

  lemma {:induction false} CountTrueSnoc(results: seq<bool>, r: bool)
    ensures CountTrue(results + [r]) == CountTrue(results) + (if r then 1 else 0)
  {
    assert (results + [r])[..|results|] == results;
  }

  /** The orchestrator with the services it holds: the checksum store and
      the chunker. Drive and OpenAI are given by their outcomes. */
  class SyncEngine {
    const db: DatabaseDBManager.DBManager
    const chunker: SemanticChunker.SemanticChunker

    /** The store starts from what `state.json` holds; the chunker has its
        default limit. */
    constructor (stored: seq<FileRecord>)
      ensures fresh(db) && fresh(chunker)
      ensures db.fileTable == stored
      ensures chunker.maxChunkChars == SemanticChunker.DefaultMaxChunkChars
    {
      db := new DatabaseDBManager.DBManager(stored);
      chunker := new SemanticChunker.SemanticChunker();
    }

    /** `_get_files_to_process`: one status check per listed file. */
    method GetFilesToProcess(driveFiles: seq<DriveFile>) returns (processingQueue: seq<DriveFile>)
      ensures processingQueue == FilesToProcess(db.fileTable, driveFiles)
    {
      processingQueue := [];
      for i := 0 to |driveFiles|
        invariant processingQueue == FilesToProcess(db.fileTable, driveFiles[..i])
      {
        FilesToProcessStep(db.fileTable, driveFiles, i);
        var file := driveFiles[i];
        var isProcessed, storedChecksum := db.CheckFileStatus(file.id);
        if !isProcessed {
          processingQueue := processingQueue + [file];
        } else if storedChecksum != Some(file.md5Checksum) {
          processingQueue := processingQueue + [file];
        }
      }
      TakeAll(driveFiles);
    }

    /** One page of step B: the page is chunked and each chunk is
        enriched with the file's fields and the page's printed number. */
    method EnrichPage(page: ExtractionService.ExtractedPage, fields: PdfProcessor.FilenameFields)
      returns (blocks: seq<string>, chunkCount: nat)
      ensures blocks == PageBlocks(page, fields, chunker.maxChunkChars)
      ensures chunkCount == |SemanticChunker.Chunks(page.text, chunker.maxChunkChars)|
    {
      var chunks := chunker.ChunkText(page.text);
      chunkCount := |chunks|;
      ghost var enrich := Enrich(fields, page.internalPageNumber);
      blocks := [];
      for j := 0 to |chunks|
        invariant blocks == Map(enrich, chunks[..j])
      {
        MapPrefixSnoc(enrich, chunks, j);
        var meta := PdfProcessor.PageMetadata(fields, page.internalPageNumber);
        var enrichedChunk := InjectMetadata(chunks[j], meta);
        assert enrich(chunks[j]) == enrichedChunk;
        blocks := blocks + [enrichedChunk];
      }
      TakeAll(chunks);
    }

    /** Step B of `_process_single_file`: every page in turn. */
    method EnrichPages(pages: seq<ExtractionService.ExtractedPage>, fields: PdfProcessor.FilenameFields)
      returns (finalTextBlocks: seq<string>, totalChunks: nat)
      ensures finalTextBlocks == DocumentBlocks(pages, fields, chunker.maxChunkChars)
      ensures totalChunks == TotalChunks(pages, chunker.maxChunkChars)
    {
      var max := chunker.maxChunkChars;
      finalTextBlocks := [];
      totalChunks := 0;
      for i := 0 to |pages|
        invariant finalTextBlocks == DocumentBlocks(pages[..i], fields, max)
        invariant totalChunks == TotalChunks(pages[..i], max)
      {
        DocumentStep(pages, fields, max, i);
        var blocks, chunkCount := EnrichPage(pages[i], fields);
        totalChunks := totalChunks + chunkCount;
        finalTextBlocks := finalTextBlocks + blocks;
      }
      TakeAll(pages);
    }

    /** Step B of `_process_single_file` once the pages are extracted: the
        file's fields are parsed from its name and `final_document_text` is
        built with them. */
    method BuildDocument(file: DriveFile, pages: seq<ExtractionService.ExtractedPage>)
      returns (finalDocumentText: string, totalChunks: nat)
      ensures finalDocumentText == DocumentText(pages, ParseFilenameMetadata(file.name), chunker.maxChunkChars)
      ensures totalChunks == TotalChunks(pages, chunker.maxChunkChars)
    {
      var fields := ParseFilenameMetadata(file.name);
      var finalTextBlocks;
      finalTextBlocks, totalChunks := EnrichPages(pages, fields);
      finalDocumentText := Join(finalTextBlocks, DocumentSeparator);
    }

    /** `_process_single_file`: whether the file was recorded, and the text
        written to the processed file and handed to the upload, if it got
        that far. The checksum is recorded only once the upload reports
        success, and any failure leaves the store as it was. */
    method ProcessSingleFile(file: DriveFile, e: FileEffects) returns (ok: bool, uploaded: Option<string>)
      modifies db
      ensures ok <==> Succeeds(e)
      ensures uploaded.Some? <==> Uploads(e)
      ensures uploaded.Some? ==>
        uploaded.value
          == DocumentText(ExtractionService.ExtractedPages(e.doc.value), ParseFilenameMetadata(file.name), chunker.maxChunkChars)
      ensures ok ==> db.fileTable == Upsert(old(db.fileTable), RecordOf(file))
      ensures !ok ==> db.fileTable == old(db.fileTable)
    {
      uploaded := None;
      if e.download.Raised? || e.download.value == [] {
        return false, None;
      }
      var extracted := ExtractionService.ExtractDocument(e.pdfExists, e.doc);
      if extracted.Raised? {
        return false, None;
      }
      var finalDocumentText, totalChunks := BuildDocument(file, extracted.value);
      if !e.writeOk {
        return false, None;
      }
      uploaded := Some(finalDocumentText);
      if e.upload.Raised? || !e.upload.value {
        return false, uploaded;
      }
      var outcome := db.MarkFileAsProcessed(file.id, file.name, file.md5Checksum, e.dbWriteOk);
      ok := outcome == Pass;
    }

    /** `_process_file_batch`, with the files taken one after another:
        `outcome` says how each file's outside calls turn out. The store ends
        with a record for exactly the files that succeeded. */
    method ProcessFileBatch(files: seq<DriveFile>, outcome: DriveFile -> FileEffects)
      returns (results: seq<bool>, successCount: nat, failCount: int)
      modifies db
      ensures |results| == |files|
      ensures forall i :: 0 <= i < |files| ==> results[i] == Succeeds(outcome(files[i]))
      ensures successCount == CountTrue(results) == |Succeeded(files, outcome)|
      ensures failCount == |files| - successCount
      ensures db.fileTable == RecordAll(old(db.fileTable), Succeeded(files, outcome))
    {
      results := [];
      ghost var done: seq<DriveFile> := [];
      for i := 0 to |files|
        invariant |results| == i
        invariant forall k :: 0 <= k < i ==> results[k] == Succeeds(outcome(files[k]))
        invariant done == Succeeded(files[..i], outcome)
        invariant CountTrue(results) == |done|
        invariant db.fileTable == RecordAll(old(db.fileTable), done)
      {
        SucceededStep(files, outcome, i);
        var file := files[i];
        var ok, _ := ProcessSingleFile(file, outcome(file));
        CountTrueSnoc(results, ok);
        if ok {
          RecordAllSnoc(old(db.fileTable), done, file);
          done := done + [file];
        }
        assert done == Succeeded(files[..i + 1], outcome);
        ghost var prev := results;
        results := results + [ok];
        forall k | 0 <= k < i + 1 ensures results[k] == Succeeds(outcome(files[k])) {
          if k < i {
            assert results[k] == prev[k];
          } else {
            assert results[k] == ok;
          }
        }
      }
      TakeAll(files);
      successCount := CountTrue(results);
      failCount := |files| - successCount;
    }

    /** `start`: one synchronisation cycle. `vectorStoreOk` and `listing` are
        the outcomes of getting the vector store and the Drive listing,
        `assistantOk` that of updating the assistant afterwards. Returns
        whether the cycle completes and the queue it built. */
    method Start(vectorStoreOk: bool, listing: Attempt<seq<DriveFile>>, outcome: DriveFile -> FileEffects, assistantOk: bool)
      returns (completed: bool, queue: seq<DriveFile>)
      modifies db
      ensures completed <==> vectorStoreOk && listing.Returned? && assistantOk
      ensures !vectorStoreOk || listing.Raised? ==> db.fileTable == old(db.fileTable) && queue == []
      ensures vectorStoreOk && listing.Returned? ==>
        && queue == FilesToProcess(old(db.fileTable), listing.value)
        && db.fileTable == RecordAll(old(db.fileTable), Succeeded(queue, outcome))
      ensures vectorStoreOk && listing.Returned? && DistinctIds(listing.value)
              && (forall f :: f in queue ==> Succeeds(outcome(f))) ==>
        FilesToProcess(db.fileTable, listing.value) == []
    {
      if !vectorStoreOk || listing.Raised? {
        return false, [];
      }
      var driveFiles := listing.value;
      queue := GetFilesToProcess(driveFiles);
      if queue != [] {
        var _, _, _ := ProcessFileBatch(queue, outcome);
      }
      if DistinctIds(driveFiles) && forall f :: f in queue ==> Succeeds(outcome(f)) {
        forall k | 0 <= k < |queue| ensures Succeeds(outcome(queue[k])) {
          assert queue[k] in queue;
        }
        AllSucceeded(queue, outcome);
        ResyncFindsNothing(old(db.fileTable), driveFiles);
      }
      completed := assistantOk;
    }
  }
}
