/** Validation of a chunk's metadata and the Markdown block appended to
    every chunk before it is uploaded. */
module MetadataInjector {
  import opened Wrappers
  import opened Text
  import opened Seqs

  /** The placeholder for a missing or unusable field. */
  const Unknown: string := "Unknown"

  /** A value of the incoming metadata dictionary. */
  datatype Value = Str(s: string) | Null

  /** The validated metadata of one chunk. */
  datatype ChunkMetadata = ChunkMetadata(title: string, author: string, year: string, internalPageNumber: string)

  /** Every field at its default. */
  const DefaultMetadata: ChunkMetadata := ChunkMetadata(Unknown, Unknown, Unknown, Unknown)

  /** A plain string field: absent takes the default, `None` is a validation
      error. */
  function StrField(d: map<string, Value>, key: string): (r: Option<string>)
    ensures r.None? <==> key in d && d[key].Null?
    ensures key !in d ==> r == Some(Unknown)
    ensures key in d && d[key].Str? ==> r == Some(d[key].s)
  {
    if key !in d then Some(Unknown)
    else match d[key]
      case Str(s) => Some(s)
      case Null => None
  }

  /** The page-number validator, which also runs on the default: an empty,
      blank or missing value becomes `Unknown`, anything else is stripped. */
  function ValidatePageNumber(v: Option<Value>): (page: string)
    ensures page != [] && IsStripped(page)
  {
    var s := match v
      case None => Unknown
      case Some(Null) => []
      case Some(Str(s)) => s;
    assert !IsSpace('U') && !IsSpace('n');
    if s == [] || Strip(s) == [] then Unknown else Strip(s)
  }

  /** The page number is kept (stripped) exactly when it has a non-blank
      value, and is `Unknown` otherwise. */
  lemma {:induction false} PageNumberNormalised(v: Option<Value>)
    ensures v.Some? && v.value.Str? && !AllSpace(v.value.s) ==> ValidatePageNumber(v) == Strip(v.value.s)
    ensures (v.None? || v.value.Null? || AllSpace(v.value.s)) ==> ValidatePageNumber(v) == Unknown
  {
    match v
    case None =>
      UnknownStripped();
    case Some(Null) =>
    case Some(Str(s)) =>
      StripEmpty(s);
      assert s == [] ==> AllSpace(s);
  }

  lemma {:induction false} UnknownStripped()
    ensures Strip(Unknown) == Unknown
  {
    assert !IsSpace(Unknown[0]) && !IsSpace(Unknown[6]);
    StripStripped(Unknown);
  }

  /** `ChunkMetadata(**metadata_dict)`: `None` when validation raises. Keys
      other than the four fields are ignored. */
  function Validate(d: map<string, Value>): (r: Option<ChunkMetadata>)
    ensures r.Some? <==> StrField(d, "title").Some? && StrField(d, "author").Some? && StrField(d, "year").Some?
    ensures r.Some? ==>
      && ("title" in d ==> d["title"] == Str(r.value.title))
      && ("author" in d ==> d["author"] == Str(r.value.author))
      && ("year" in d ==> d["year"] == Str(r.value.year))
    ensures r.Some? ==>
      r.value.internalPageNumber
        == ValidatePageNumber(if "internal_page_number" in d then Some(d["internal_page_number"]) else None)
  {
    var title := StrField(d, "title");
    var author := StrField(d, "author");
    var year := StrField(d, "year");
    var page := ValidatePageNumber(if "internal_page_number" in d then Some(d["internal_page_number"]) else None);
    if title.None? || author.None? || year.None? then None
    else Some(ChunkMetadata(title.value, author.value, year.value, page))
  }

  /** Validation fails exactly when one of the plain string fields is given
      as `None`. */
  lemma {:induction false} ValidateFailsIff(d: map<string, Value>)
    ensures Validate(d).None? <==>
      (exists key :: key in ["title", "author", "year"] && key in d && d[key].Null?)
  {
    if Validate(d).None? {
      if StrField(d, "title").None? {
        assert "title" in ["title", "author", "year"];
      } else if StrField(d, "author").None? {
        assert "author" in ["title", "author", "year"];
      } else {
        assert "year" in ["title", "author", "year"];
      }
    }
  }

  /** The metadata the block is built from: the validated one, or every field
      `Unknown` when validation fails. */
  function EffectiveMetadata(d: map<string, Value>): (m: ChunkMetadata)
    ensures Validate(d).None? ==> m == DefaultMetadata
    ensures Validate(d).Some? ==> m == Validate(d).value
  {
    match Validate(d)
    case Some(m) => m
    case None => DefaultMetadata
  }

  /** Each field that is missing from the dictionary is `Unknown`, and a
      failed validation discards the page number as well. */
  lemma {:induction false} MissingFieldsDefault(d: map<string, Value>)
    ensures "title" !in d && Validate(d).Some? ==> EffectiveMetadata(d).title == Unknown
    ensures "author" !in d && Validate(d).Some? ==> EffectiveMetadata(d).author == Unknown
    ensures "year" !in d && Validate(d).Some? ==> EffectiveMetadata(d).year == Unknown
    ensures "internal_page_number" !in d ==> EffectiveMetadata(d).internalPageNumber == Unknown
    ensures Validate(d).None? ==> EffectiveMetadata(d).internalPageNumber == Unknown
  {
    PageNumberNormalised(None);
  }

  const Hyphens10: string := "----------"
  /** The rule above and below the block: fifty hyphens. */
  const Dashes: string := Hyphens10 + Hyphens10 + Hyphens10 + Hyphens10 + Hyphens10
  const Header: string := "**SOURCE METADATA FOR FORENSIC EXTRACTION:**"
  const TitleLabel: string := "Title: "
  const AuthorLabel: string := "Author: "
  const YearLabel: string := "Year: "
  const PaginationLabel: string := "Internal Pagination: "

  /** The Markdown block appended to a chunk. */
  function Block(m: ChunkMetadata): string {
    "\n\n"
    + Dashes + "\n"
    + Header + "\n"
    + TitleLabel + m.title + "\n"
    + AuthorLabel + m.author + "\n"
    + YearLabel + m.year + "\n"
    + PaginationLabel + m.internalPageNumber + "\n"
    + Dashes + "\n"
  }

  /** `inject_metadata`: a blank chunk is returned unchanged; otherwise the
      stripped chunk followed by the block of the effective metadata. */
  function InjectMetadata(raw: string, d: map<string, Value>): (enriched: string)
    ensures AllSpace(raw) ==> enriched == raw
    ensures !AllSpace(raw) ==> |enriched| > |Strip(raw)| && enriched[..|Strip(raw)|] == Strip(raw)
    ensures !AllSpace(raw) ==> enriched == Strip(raw) + Block(EffectiveMetadata(d))
  {
    StripEmpty(raw);
    if raw == [] || Strip(raw) == [] then raw
    else Strip(raw) + Block(EffectiveMetadata(d))
  }

  /** `body` followed by the given lines, each after a line feed. */
  function Lines(body: string, ls: seq<string>): string {
    if ls == [] then body else Lines(body, ls[..|ls| - 1]) + "\n" + ls[|ls| - 1]
  }

  /** Takes the last `n` lines off a text. */
  function PeelLines(s: string, n: nat): (r: Option<(string, seq<string>)>)
    ensures r.Some? ==> |r.value.1| == n
  {
    if n == 0 then Some((s, []))
    else match LastLine(s)
      case None => None
      case Some((init, line)) =>
        match PeelLines(init, n - 1)
        case None => None
        case Some((body, ls)) => Some((body, ls + [line]))
  }

  lemma {:induction false} PeelLinesRoundTrip(body: string, ls: seq<string>)
    requires forall k :: 0 <= k < |ls| ==> '\n' !in ls[k]
    ensures PeelLines(Lines(body, ls), |ls|) == Some((body, ls))
  {
    if ls != [] {
      var n := |ls| - 1;
      PeelLinesRoundTrip(body, ls[..n]);
      LastLineSnoc(Lines(body, ls[..n]), ls[n]);
      SnocLast(ls);
    }
  }

  const Footer: string := "\n" + Dashes + "\n"

  function HasPrefix(s: string, p: string): bool {
    |p| <= |s| && s[..|p|] == p
  }

  /** The lines of the block between the chunk and the closing rule. */
  function BlockLines(m: ChunkMetadata): seq<string> {
    ["", Dashes, Header, TitleLabel + m.title, AuthorLabel + m.author,
     YearLabel + m.year, PaginationLabel + m.internalPageNumber]
  }

  /** Reads an enriched chunk back into its text and its metadata, the way a
      reader of the block finds the fields by their labels. */
  function ReadBlock(e: string): Option<(string, ChunkMetadata)> {
    if |e| < |Footer| || e[|e| - |Footer|..] != Footer then None
    else match PeelLines(e[..|e| - |Footer|], 7)
      case None => None
      case Some((body, ls)) =>
        if && ls[0] == [] && ls[1] == Dashes && ls[2] == Header
           && HasPrefix(ls[3], TitleLabel) && HasPrefix(ls[4], AuthorLabel)
           && HasPrefix(ls[5], YearLabel) && HasPrefix(ls[6], PaginationLabel)
        then Some((body, ChunkMetadata(ls[3][|TitleLabel|..], ls[4][|AuthorLabel|..],
                                       ls[5][|YearLabel|..], ls[6][|PaginationLabel|..])))
        else None
  }

  predicate SingleLine(m: ChunkMetadata) {
    '\n' !in m.title && '\n' !in m.author && '\n' !in m.year && '\n' !in m.internalPageNumber
  }

  lemma {:induction false} LabelledLine(tag: string, v: string)
    ensures HasPrefix(tag + v, tag) && (tag + v)[|tag|..] == v
  {
  }

  lemma {:induction false} LinesSnoc(body: string, ls: seq<string>, k: nat)
    requires k < |ls|
    ensures Lines(body, ls[..k + 1]) == Lines(body, ls[..k]) + "\n" + ls[k]
  {
    PrefixSnoc(ls, k);
  }

  lemma {:induction false} Assoc(a: string, b: string, c: string)
    ensures a + (b + c) == a + b + c
  {
  }

  /** The block after a text, regrouped line by line. */
  lemma {:induction false} BlockRegrouped(body: string, m: ChunkMetadata)
    ensures body + Block(m)
         == body + "\n" + "" + "\n" + Dashes + "\n" + Header
            + "\n" + (TitleLabel + m.title) + "\n" + (AuthorLabel + m.author)
            + "\n" + (YearLabel + m.year) + "\n" + (PaginationLabel + m.internalPageNumber)
            + Footer
  {
    var b0 := "\n\n";
    var b1 := b0 + Dashes;
    var b2 := b1 + "\n";
    var b3 := b2 + Header;
    var b4 := b3 + "\n";
    var b5 := b4 + TitleLabel;
    var b6 := b5 + m.title;
    var b7 := b6 + "\n";
    var b8 := b7 + AuthorLabel;
    var b9 := b8 + m.author;
    var b10 := b9 + "\n";
    var b11 := b10 + YearLabel;
    var b12 := b11 + m.year;
    var b13 := b12 + "\n";
    var b14 := b13 + PaginationLabel;
    var b15 := b14 + m.internalPageNumber;
    var b16 := b15 + "\n";
    var b17 := b16 + Dashes;
    assert Block(m) == b17 + "\n";
    Assoc(body, b17, "\n");
    Assoc(body, b16, Dashes);
    Assoc(body, b15, "\n");
    Assoc(body, b14, m.internalPageNumber);
    Assoc(body, b13, PaginationLabel);
    Assoc(body, b12, "\n");
    Assoc(body, b11, m.year);
    Assoc(body, b10, YearLabel);
    Assoc(body, b9, "\n");
    Assoc(body, b8, m.author);
    Assoc(body, b7, AuthorLabel);
    Assoc(body, b6, "\n");
    Assoc(body, b5, m.title);
    Assoc(body, b4, TitleLabel);
    Assoc(body, b3, "\n");
    Assoc(body, b2, Header);
    Assoc(body, b1, "\n");
    Assoc(body, b0, Dashes);
    assert body + "\n\n" == body + "\n" + "" + "\n";
    var h1 := body + "\n" + "" + "\n" + Dashes + "\n" + Header + "\n";
    Assoc(h1, TitleLabel, m.title);
    var h2 := h1 + (TitleLabel + m.title) + "\n";
    Assoc(h2, AuthorLabel, m.author);
    var h3 := h2 + (AuthorLabel + m.author) + "\n";
    Assoc(h3, YearLabel, m.year);
    var h4 := h3 + (YearLabel + m.year) + "\n";
    Assoc(h4, PaginationLabel, m.internalPageNumber);
    var h5 := h4 + (PaginationLabel + m.internalPageNumber);
    Assoc(h5, "\n" + Dashes, "\n");
    Assoc(h5, "\n", Dashes);
  }

  lemma {:induction false} BlockAsLines(body: string, m: ChunkMetadata)
    ensures body + Block(m) == Lines(body, BlockLines(m)) + Footer
  {
    var ls := BlockLines(m);
    assert ls[..0] == [];
    LinesSnoc(body, ls, 0);
    LinesSnoc(body, ls, 1);
    LinesSnoc(body, ls, 2);
    LinesSnoc(body, ls, 3);
    LinesSnoc(body, ls, 4);
    LinesSnoc(body, ls, 5);
    LinesSnoc(body, ls, 6);
    TakeAll(ls);
    BlockRegrouped(body, m);
  }

  lemma {:induction false} FixedPartsSingleLine()
    ensures '\n' !in Dashes && '\n' !in Header
    ensures '\n' !in TitleLabel && '\n' !in AuthorLabel && '\n' !in YearLabel && '\n' !in PaginationLabel
  {
    DashesSingleLine();
    HeaderSingleLine();
    LabelsSingleLine();
  }

  lemma {:induction false} DashesSingleLine()
    ensures '\n' !in Dashes
  {
    assert '\n' !in Hyphens10;
  }

  lemma {:induction false} HeaderSingleLine()
    ensures '\n' !in Header
  {
  }

  lemma {:induction false} LabelsSingleLine()
    ensures '\n' !in TitleLabel && '\n' !in AuthorLabel && '\n' !in YearLabel && '\n' !in PaginationLabel
  {
  }

  /** A block written for single-line field values reads back as the same
      text and the same metadata. */
  lemma {:induction false} ReadBlockRoundTrip(body: string, m: ChunkMetadata)
    requires SingleLine(m)
    ensures ReadBlock(body + Block(m)) == Some((body, m))
  {
    var ls := BlockLines(m);
    BlockAsLines(body, m);
    var e := body + Block(m);
    var pre := Lines(body, ls);
    assert e[|e| - |Footer|..] == Footer && e[..|e| - |Footer|] == pre;
    BlockLinesSingle(m);
    PeelLinesRoundTrip(body, ls);
    assert PeelLines(e[..|e| - |Footer|], 7) == Some((body, ls));
    BlockLinesRead(m);
  }

  lemma {:induction false} BlockLinesSingle(m: ChunkMetadata)
    requires SingleLine(m)
    ensures forall k :: 0 <= k < |BlockLines(m)| ==> '\n' !in BlockLines(m)[k]
  {
    FixedPartsSingleLine();
    var ls := BlockLines(m);
    assert ls[3] == TitleLabel + m.title && ls[4] == AuthorLabel + m.author;
    assert ls[5] == YearLabel + m.year && ls[6] == PaginationLabel + m.internalPageNumber;
  }

  lemma {:induction false} BlockLinesRead(m: ChunkMetadata)
    ensures var ls := BlockLines(m);
      && ls[0] == [] && ls[1] == Dashes && ls[2] == Header
      && HasPrefix(ls[3], TitleLabel) && HasPrefix(ls[4], AuthorLabel)
      && HasPrefix(ls[5], YearLabel) && HasPrefix(ls[6], PaginationLabel)
      && ChunkMetadata(ls[3][|TitleLabel|..], ls[4][|AuthorLabel|..],
                       ls[5][|YearLabel|..], ls[6][|PaginationLabel|..]) == m
  {
    LabelledLine(TitleLabel, m.title);
    LabelledLine(AuthorLabel, m.author);
    LabelledLine(YearLabel, m.year);
    LabelledLine(PaginationLabel, m.internalPageNumber);
  }

  /** An injected chunk carries its stripped text and the effective metadata,
      internal page number included, where a reader can find them again. */
  lemma {:induction false} InjectRoundTrip(raw: string, d: map<string, Value>)
    requires !AllSpace(raw)
    requires SingleLine(EffectiveMetadata(d))
    ensures ReadBlock(InjectMetadata(raw, d)) == Some((Strip(raw), EffectiveMetadata(d)))
  {
    StripEmpty(raw);
    ReadBlockRoundTrip(Strip(raw), EffectiveMetadata(d));
  }
}
