/** The PDF pre-processor: reads the year, author and title from a file
    name, guesses each page's printed page number, and writes one text file
    in which every non-blank page carries its own metadata block. */
module PdfProcessor {
  import opened Wrappers
  import opened Text
  import Pagination
  import opened MetadataInjector
  import opened Seqs

  /** Lines inspected at each end of a page for its printed number. */
  const PageWindow: nat := 3

  /** The separator of the `YYYY - Author - Title.pdf` naming convention. */
  const Separator: string := " - "

  const PdfExtension: string := ".pdf"

  /** Appended to the PDF's path to name the text file written beside it. */
  const OutputSuffix: string := "_processed.txt"

  /** `_guess_internal_page_number`: the first page-number line among the
      first three and then the last three lines of the page. */
  function GuessInternalPageNumber(pageText: string): (r: string)
    ensures r == Unknown || (r != [] && AllDigits(r))
  {
    Pagination.GuessInternalPageNumber(pageText, PageWindow)
  }

  datatype FilenameFields = FilenameFields(year: string, author: string, title: string)

  /** `filename.replace(".pdf", "").strip()`. */
  function CleanName(filename: string): string {
    Strip(RemoveAll(filename, PdfExtension))
  }

  /** `_parse_filename_metadata`: three or more parts give year, author and
      the rest rejoined as the title; two give year and title; otherwise the
      cleaned name is the title. */
  function ParseFilenameMetadata(filename: string): (f: FilenameFields)
    ensures IsStripped(f.year) && IsStripped(f.author) && IsStripped(f.title)
  {
    var clean := CleanName(filename);
    var parts := SplitOn(clean, Separator);
    assert IsStripped(Unknown) by { assert !IsSpace(Unknown[0]) && !IsSpace(Unknown[6]); }
    if |parts| >= 3 then FilenameFields(Strip(parts[0]), Strip(parts[1]), Strip(Join(parts[2..], Separator)))
    else if |parts| == 2 then FilenameFields(Strip(parts[0]), Unknown, Strip(parts[1]))
    else FilenameFields(Unknown, Unknown, clean)
  }

  /** Every occurrence of the separator has a hyphen in the middle, so in
      `x + " - " + rest` with no hyphen in `x` the first one follows `x`. */
  lemma {:induction false} NoDashNoSeparator(x: string, rest: string)
    requires '-' !in x
    ensures forall k :: 0 <= k < |x| ==> !OccursAt(Separator, x + Separator + rest, k)
  {
    var s := x + Separator + rest;
    forall k | 0 <= k < |x| ensures !OccursAt(Separator, s, k) {
      if k + 3 <= |s| {
        if k + 1 < |x| {
          assert s[k + 1] == x[k + 1];
        } else {
          assert s[k + 1] == Separator[0];
        }
        assert s[k..k + 3][1] != Separator[1];
      }
    }
  }

  /** Removing `.pdf` from a name that ends with it, and has it nowhere
      else, leaves the stem. No proper suffix of `.pdf` is a prefix of it, so
      no occurrence straddles the stem and the extension. */
  lemma {:induction false} RemoveExtension(stem: string)
    requires !Occurs(PdfExtension, stem)
    ensures RemoveAll(stem + PdfExtension, PdfExtension) == stem
  {
    var s := stem + PdfExtension + "";
    assert s == stem + PdfExtension;
    forall k | 0 <= k < |stem| ensures !OccursAt(PdfExtension, s, k) {
      if k + 4 <= |stem| {
        assert s[k..k + 4] == stem[k..k + 4];
        assert !OccursAt(PdfExtension, stem, k);
      } else if k + 4 <= |s| {
        var d := |stem| - k;
        assert s[k..k + 4][d] == s[|stem|] == '.';
        assert s[k..k + 4][d] != PdfExtension[d];
      }
    }
    SplitOnCons(stem, PdfExtension, "");
    assert SplitOn("", PdfExtension) == [""];
    assert Concat([stem] + [""]) == stem + Concat([""]);
  }

  /** A stem with `.pdf` nowhere and no whitespace at its ends is what
      cleaning `stem + ".pdf"` gives back. */
  lemma {:induction false} CleanStem(stem: string)
    requires !Occurs(PdfExtension, stem) && IsStripped(stem)
    ensures CleanName(stem + PdfExtension) == stem
  {
    RemoveExtension(stem);
    StripStripped(stem);
  }

  lemma {:induction false} StemStripped(first: string, mid: string, last: string)
    requires first != [] && !IsSpace(first[0]) && last != [] && !IsSpace(last[|last| - 1])
    ensures IsStripped(first + mid + last)
  {
    var s := first + mid + last;
    assert s[0] == first[0];
    assert s[|s| - 1] == last[|last| - 1];
  }

  lemma {:induction false} ParseOfParts(filename: string, parts: seq<string>)
    requires SplitOn(CleanName(filename), Separator) == parts
    ensures |parts| >= 3 ==>
      ParseFilenameMetadata(filename) == FilenameFields(Strip(parts[0]), Strip(parts[1]), Strip(Join(parts[2..], Separator)))
    ensures |parts| == 2 ==> ParseFilenameMetadata(filename) == FilenameFields(Strip(parts[0]), Unknown, Strip(parts[1]))
  {
  }

  /** With no hyphen in `year` or `author`, the first two separators of
      `year - author - title` are the ones written between them. */
  lemma {:induction false} SplitThree(year: string, author: string, title: string)
    requires '-' !in year && '-' !in author
    ensures SplitOn(year + Separator + author + Separator + title, Separator)
         == [year, author] + SplitOn(title, Separator)
  {
    var inner := author + Separator + title;
    Assoc3(year, Separator, author + Separator, title);
    assert year + Separator + author + Separator + title == year + Separator + inner;
    NoDashNoSeparator(year, inner);
    SplitOnCons(year, Separator, inner);
    NoDashNoSeparator(author, title);
    SplitOnCons(author, Separator, title);
    assert [year] + ([author] + SplitOn(title, Separator)) == [year, author] + SplitOn(title, Separator);
  }

  lemma {:induction false} Assoc3(a: string, b: string, c: string, d: string)
    ensures a + b + c + d == a + b + (c + d)
  {
  }

  /** A name `Y - A - T.pdf` reads back as year `Y`, author `A` and title
      `T` when year and author have no hyphen, the title may hold further
      separators, nothing has stray whitespace and `.pdf` is only the
      extension. */
  lemma {:induction false} ParseThreeParts(year: string, author: string, title: string)
    requires year != [] && IsStripped(year) && '-' !in year
    requires IsStripped(author) && '-' !in author
    requires title != [] && IsStripped(title)
    requires !Occurs(PdfExtension, year + Separator + author + Separator + title)
    ensures ParseFilenameMetadata(year + Separator + author + Separator + title + PdfExtension)
         == FilenameFields(year, author, title)
  {
    var stem := year + Separator + author + Separator + title;
    ThreeStemClean(year, author, title);
    SplitThree(year, author, title);
    var parts := [year, author] + SplitOn(title, Separator);
    assert SplitOn(CleanName(stem + PdfExtension), Separator) == parts;
    ParseOfParts(stem + PdfExtension, parts);
    assert parts[0] == year && parts[1] == author;
    RejoinedTitle(year, author, title);
    StripStripped(year);
    StripStripped(author);
  }

  lemma {:induction false} ThreeStemClean(year: string, author: string, title: string)
    requires year != [] && IsStripped(year)
    requires title != [] && IsStripped(title)
    requires !Occurs(PdfExtension, year + Separator + author + Separator + title)
    ensures CleanName(year + Separator + author + Separator + title + PdfExtension)
         == year + Separator + author + Separator + title
  {
    var stem := year + Separator + author + Separator + title;
    Assoc3(year, Separator, author + Separator, title);
    StemStripped(year, Separator + author + Separator, title);
    assert year + (Separator + author + Separator) + title == stem;
    CleanStem(stem);
  }

  lemma {:induction false} RejoinedTitle(year: string, author: string, title: string)
    requires IsStripped(title)
    ensures Strip(Join(([year, author] + SplitOn(title, Separator))[2..], Separator)) == title
  {
    var parts := [year, author] + SplitOn(title, Separator);
    assert parts[2..] == SplitOn(title, Separator);
    SplitJoin(title, Separator);
    StripStripped(title);
  }

  /** A name `Y - T.pdf` with a single separator reads back as year `Y`,
      title `T` and an unknown author. */
  lemma {:induction false} ParseTwoParts(year: string, title: string)
    requires year != [] && IsStripped(year) && '-' !in year
    requires title != [] && IsStripped(title) && !Occurs(Separator, title)
    requires !Occurs(PdfExtension, year + Separator + title)
    ensures ParseFilenameMetadata(year + Separator + title + PdfExtension)
         == FilenameFields(year, Unknown, title)
  {
    var stem := year + Separator + title;
    StemStripped(year, Separator, title);
    CleanStem(stem);
    NoDashNoSeparator(year, title);
    SplitOnCons(year, Separator, title);
    SplitFromNoOccurrence(title, Separator, 0, 0);
    assert title[0..] == title;
    var parts := [year] + [title];
    assert SplitOn(stem, Separator) == parts;
    ParseOfParts(stem + PdfExtension, parts);
    StripStripped(year);
    StripStripped(title);
  }

  /** A name without the separator is all title. */
  lemma {:induction false} ParseOnePart(filename: string)
    requires !Occurs(Separator, CleanName(filename))
    ensures ParseFilenameMetadata(filename) == FilenameFields(Unknown, Unknown, CleanName(filename))
  {
    var clean := CleanName(filename);
    SplitFromNoOccurrence(clean, Separator, 0, 0);
    assert clean[0..] == clean;
  }

  /** The dictionary handed to the injector for one page. */
  function PageMetadata(f: FilenameFields, internalPage: string): map<string, Value> {
    map["title" := Str(f.title), "author" := Str(f.author), "year" := Str(f.year),
        "internal_page_number" := Str(internalPage)]
  }

  /** What one non-blank page adds to the output: its stripped text with its
      metadata block, then a blank line. */
  function PageEntry(raw: string, f: FilenameFields): string {
    InjectMetadata(raw, PageMetadata(f, GuessInternalPageNumber(raw))) + "\n\n"
  }

  /** `PageEntry` with the file's fields fixed. */
  function EntryOf(f: FilenameFields): string -> string {
    raw => PageEntry(raw, f)
  }

  function PageEntries(raws: seq<string>, f: FilenameFields): seq<string> {
    Map(EntryOf(f), raws)
  }

  /** The text file's contents: the entries of the non-blank pages, each
      stripped, in page order. */
  function EnrichedText(pages: seq<string>, f: FilenameFields): string {
    Concat(PageEntries(StrippedNonEmpty(pages), f))
  }

  /** One more page adds its entry at the end, or nothing when it is
      blank. */
  lemma {:induction false} EnrichedAppendPage(pages: seq<string>, p: string, f: FilenameFields)
    ensures EnrichedText(pages + [p], f)
         == EnrichedText(pages, f) + (if Strip(p) == [] then [] else PageEntry(Strip(p), f))
  {
    var raws := StrippedNonEmpty(pages);
    StrippedNonEmptySnoc(pages, p);
    if Strip(p) != [] {
      PageEntriesSnoc(raws, Strip(p), f);
      ConcatSnoc(PageEntries(raws, f), PageEntry(Strip(p), f));
    } else {
      assert raws + [] == raws;
    }
  }

  lemma {:induction false} PageEntriesSnoc(raws: seq<string>, raw: string, f: FilenameFields)
    ensures PageEntries(raws + [raw], f) == PageEntries(raws, f) + [PageEntry(raw, f)]
  {
    MapSnoc(EntryOf(f), raws, raw);
  }

  lemma {:induction false} EnrichedStep(pages: seq<string>, i: nat, f: FilenameFields)
    requires i < |pages|
    ensures EnrichedText(pages[..i + 1], f)
         == EnrichedText(pages[..i], f) + (if Strip(pages[i]) == [] then [] else PageEntry(Strip(pages[i]), f))
  {
    assert pages[..i + 1] == pages[..i] + [pages[i]];
    EnrichedAppendPage(pages[..i], pages[i], f);
  }

  /** The metadata a page's block carries: the file's fields and the page's
      own guess, which the validator keeps as it is. */
  lemma {:induction false} EntryMetadata(f: FilenameFields, g: string)
    requires g == Unknown || (g != [] && AllDigits(g))
    ensures EffectiveMetadata(PageMetadata(f, g)) == ChunkMetadata(f.title, f.author, f.year, g)
  {
    var d := PageMetadata(f, g);
    assert d["title"] == Str(f.title) && d["author"] == Str(f.author) && d["year"] == Str(f.year);
    assert d["internal_page_number"] == Str(g);
    assert StrField(d, "title").Some? && StrField(d, "author").Some? && StrField(d, "year").Some?;
    var m := Validate(d).value;
    GuessStripped(g);
    assert ValidatePageNumber(Some(Str(g))) == g;
    assert m == ChunkMetadata(f.title, f.author, f.year, g);
  }

  /** A guessed page number is already stripped. */
  lemma {:induction false} GuessStripped(g: string)
    requires g == Unknown || (g != [] && AllDigits(g))
    ensures Strip(g) == g
  {
    if g == Unknown {
      UnknownStripped();
    } else {
      assert IsDigit(g[0]) && IsDigit(g[|g| - 1]);
      StripStripped(g);
    }
  }

  lemma {:induction false} GuessSingleLine(g: string)
    requires g == Unknown || AllDigits(g)
    ensures '\n' !in g
  {
    if g == Unknown {
      assert forall k :: 0 <= k < |g| ==> g[k] != '\n';
    }
  }

  /** Each page's entry is its stripped text followed by a block that reads
      back as the file's year, author and title and the page's guessed
      number, provided the file's fields are single lines. */
  lemma {:induction false} EntryReadsBack(raw: string, f: FilenameFields)
    requires raw != [] && IsStripped(raw)
    requires '\n' !in f.title && '\n' !in f.author && '\n' !in f.year
    ensures var e := PageEntry(raw, f);
      && |e| >= 2 && e[|e| - 2..] == "\n\n"
      && ReadBlock(e[..|e| - 2])
         == Some((raw, ChunkMetadata(f.title, f.author, f.year, GuessInternalPageNumber(raw))))
  {
    var g := GuessInternalPageNumber(raw);
    var d := PageMetadata(f, g);
    EntryMetadata(f, g);
    GuessSingleLine(g);
    assert !AllSpace(raw) by { assert !IsSpace(raw[0]); }
    StripStripped(raw);
    InjectRoundTrip(raw, d);
    var e := PageEntry(raw, f);
    assert e[..|e| - 2] == InjectMetadata(raw, d);
  }

  /** `_extract_and_enrich`. `doc` is the document's pages as PyMuPDF
      returns their text, `None` when opening or reading it raises;
      `writeOk` says whether writing the output file succeeds. Returns the
      output path and what was written to it. */
  method ExtractAndEnrich(pdfPath: string, originalFilename: string, doc: Option<seq<string>>, writeOk: bool)
    returns (path: Option<string>, written: Option<string>)
    ensures path.Some? <==> doc.Some? && writeOk
    ensures path.Some? ==> path.value == pdfPath + OutputSuffix
    ensures written.Some? <==> path.Some?
    ensures written.Some? ==> written.value == EnrichedText(doc.value, ParseFilenameMetadata(originalFilename))
  {
    if doc.None? {
      return None, None;
    }
    var pages := doc.value;
    var fields := ParseFilenameMetadata(originalFilename);
    var outputText := "";
    for i := 0 to |pages|
      invariant outputText == EnrichedText(pages[..i], fields)
    {
      EnrichedStep(pages, i, fields);
      var rawText := Strip(pages[i]);
      if rawText == [] {
        continue;
      }
      var internalPage := GuessInternalPageNumber(rawText);
      var metaDict := PageMetadata(fields, internalPage);
      var enrichedPageText := InjectMetadata(rawText, metaDict);
      outputText := outputText + (enrichedPageText + "\n\n");
    }
    TakeAll(pages);
    if !writeOk {
      return None, None;
    }
    return Some(pdfPath + OutputSuffix), Some(outputText);
  }

  /** `process_pdf_for_vector_store`: a missing file gives `None` before
      anything is read. */
  method ProcessPdfForVectorStore(pdfPath: string, originalFilename: string, fileExists: bool,
                                  doc: Option<seq<string>>, writeOk: bool)
    returns (path: Option<string>, written: Option<string>)
    ensures !fileExists ==> path.None? && written.None?
    ensures path.Some? <==> fileExists && doc.Some? && writeOk
    ensures path.Some? ==> path.value == pdfPath + OutputSuffix
    ensures written.Some? <==> path.Some?
    ensures written.Some? ==> written.value == EnrichedText(doc.value, ParseFilenameMetadata(originalFilename))
  {
    if !fileExists {
      return None, None;
    }
    path, written := ExtractAndEnrich(pdfPath, originalFilename, doc, writeOk);
  }
}
