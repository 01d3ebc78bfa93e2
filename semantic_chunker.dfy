/** The semantic chunker: greedy packing of a page's paragraphs, and of the
    sentences of any paragraph too long to pack whole, into chunks of bounded
    size. */
module SemanticChunker {
  import opened Wrappers
  import opened Text
  import opened RegexSplit
  import opened Seqs

  /** The limit a chunker built with no argument uses. */
  const DefaultMaxChunkChars: int := 3000

  lemma {:induction false} StrippedNonEmptyNonSpace(parts: seq<string>)
    ensures NonSpace(Concat(StrippedNonEmpty(parts))) == NonSpace(Concat(parts))
  {
    if parts != [] {
      var n := |parts| - 1;
      var p := Strip(parts[n]);
      var init := StrippedNonEmpty(parts[..n]);
      StrippedNonEmptyNonSpace(parts[..n]);
      NonSpaceLast(parts);
      NonSpaceStrip(parts[n]);
      if p == [] {
        AppendEmpty(init);
        assert StrippedNonEmpty(parts) == init;
        assert NonSpace(Concat(parts)) == NonSpace(Concat(parts[..n])) + [];
      } else {
        NonSpaceSnoc(init, p);
      }
    }
  }

  /** `_split_by_sentences`: the stripped, non-empty pieces between sentence
      boundaries. */
  function SplitBySentences(text: string): seq<string> {
    StrippedNonEmpty(Split(SentenceEnd, text))
  }

  /** Every sentence is non-empty and stripped. */
  lemma {:induction false} SplitBySentencesShape(text: string)
    ensures forall k :: 0 <= k < |SplitBySentences(text)| ==>
      SplitBySentences(text)[k] != [] && IsStripped(SplitBySentences(text)[k])
  {
    StrippedNonEmptyShape(Split(SentenceEnd, text));
  }

  /** The sentences hold every non-whitespace character of the text, in
      order. */
  lemma {:induction false} SplitBySentencesNonSpace(text: string)
    ensures NonSpace(Concat(SplitBySentences(text))) == NonSpace(text)
  {
    StrippedNonEmptyNonSpace(Split(SentenceEnd, text));
    SplitNonSpace(SentenceEnd, text);
  }

  /** `re.split(r'\n\s*\n', text.strip())`: the raw paragraphs. */
  function Paragraphs(text: string): seq<string> {
    Split(BlankLine, Strip(text))
  }

  /** One unit of the packing stream: a paragraph that is followed by
      `"\n\n"` inside a chunk, or a sentence followed by `" "`. */
  datatype Piece = Piece(text: string, sep: string)

  predicate WellFormedPiece(pc: Piece, max: int) {
    && pc.text != [] && IsStripped(pc.text)
    && (pc.sep == " " || (pc.sep == "\n\n" && |pc.text| <= max))
  }

  function SentencePieces(sentences: seq<string>): seq<Piece> {
    if sentences == [] then []
    else SentencePieces(sentences[..|sentences| - 1]) + [Piece(sentences[|sentences| - 1], " ")]
  }

  /** What one raw paragraph feeds into the packing loop: nothing when it is
      blank, its sentences when it is longer than `max`, else itself. */
  function ParaPieces(para: string, max: int): seq<Piece> {
    StrippedParaPieces(Strip(para), max)
  }

  /** The same, given the paragraph already stripped. */
  function StrippedParaPieces(p: string, max: int): seq<Piece> {
    if p == [] then []
    else if |p| > max then SentencePieces(SplitBySentences(p))
    else [Piece(p, "\n\n")]
  }

  function Pieces(paras: seq<string>, max: int): seq<Piece> {
    if paras == [] then []
    else Pieces(paras[..|paras| - 1], max) + ParaPieces(paras[|paras| - 1], max)
  }

  /** The loop state: the sealed chunks and `current_chunk`. */
  datatype PackState = PackState(chunks: seq<string>, current: string)

  /** One iteration of either packing loop: append the piece when it fits,
      else seal the current chunk (if any) and start a new one with it. */
  function Step(st: PackState, pc: Piece, max: int): PackState {
    if |st.current| + |pc.text| + |pc.sep| <= max then
      PackState(st.chunks, st.current + pc.text + pc.sep)
    else
      PackState(if st.current != [] then st.chunks + [Strip(st.current)] else st.chunks,
                pc.text + pc.sep)
  }

  function Fold(ps: seq<Piece>, max: int): PackState {
    if ps == [] then PackState([], [])
    else Step(Fold(ps[..|ps| - 1], max), ps[|ps| - 1], max)
  }

  /** Push the final remaining chunk. */
  function Finish(st: PackState): seq<string> {
    if Strip(st.current) != [] then st.chunks + [Strip(st.current)] else st.chunks
  }

  /** `chunk_text` as a function of the text and the limit. */
  function Chunks(text: string, max: int): seq<string> {
    if Strip(text) == [] then []
    else Finish(Fold(Pieces(Paragraphs(text), max), max))
  }

  /** A chunk longer than the limit that is one sentence of a paragraph too
      long to pack whole. */
  ghost predicate OversizeSentence(c: string, text: string, max: int) {
    |c| > max && FromOversizePara(c, Paragraphs(text), max)
  }

  class SemanticChunker {
    const maxChunkChars: int

    constructor (maxChunkChars: int := DefaultMaxChunkChars)
      ensures this.maxChunkChars == maxChunkChars
    {
      this.maxChunkChars := maxChunkChars;
    }

    /** Splits a page's text into chunks, paragraph by paragraph and, for an
        oversize paragraph, sentence by sentence. */
    method ChunkText(text: string) returns (chunks: seq<string>)
      ensures chunks == Chunks(text, maxChunkChars)
      ensures AllSpace(text) <==> chunks == []
      ensures forall c :: c in chunks ==> c != [] && IsStripped(c)
      ensures forall c :: c in chunks ==> |c| <= maxChunkChars || OversizeSentence(c, text, maxChunkChars)
      ensures NonSpace(Concat(chunks)) == NonSpace(text)
    {
      var max := maxChunkChars;
      if text == [] || Strip(text) == [] {
        ChunksProperties(text, max);
        return [];
      }
      chunks := [];
      var current := "";
      var paragraphs := Split(BlankLine, Strip(text));
      for i := 0 to |paragraphs|
        invariant PackState(chunks, current) == Fold(Pieces(paragraphs[..i], max), max)
      {
        var para := Strip(paragraphs[i]);
        if para == [] {
          SkipBlankPara(paragraphs, i, max);
          continue;
        }
        if |para| > max {
          var sentenceChunks := SplitBySentences(para);
          ghost var done := Pieces(paragraphs[..i], max);
          NoSentencesYet(done, sentenceChunks);
          for j := 0 to |sentenceChunks|
            invariant PackState(chunks, current) == Fold(done + SentencePieces(sentenceChunks[..j]), max)
          {
            var sc := sentenceChunks[j];
            SentenceStep(done, sentenceChunks, j, max);
            if |current| + |sc| + 1 <= max {
              current := current + sc + " ";
            } else {
              if current != [] {
                chunks := chunks + [Strip(current)];
              }
              current := sc + " ";
            }
          }
          OversizeParaDone(paragraphs, i, max);
        } else {
          FitParaStep(paragraphs, i, max);
          if |current| + |para| + 2 <= max {
            current := current + para + "\n\n";
          } else {
            if current != [] {
              chunks := chunks + [Strip(current)];
            }
            current := para + "\n\n";
          }
        }
      }
      TakeAll(paragraphs);
      if Strip(current) != [] {
        chunks := chunks + [Strip(current)];
      }
      ChunksProperties(text, max);
    }
  }

  lemma {:induction false} FoldSnoc(ps: seq<Piece>, pc: Piece, max: int)
    ensures Fold(ps + [pc], max) == Step(Fold(ps, max), pc, max)
  {
    assert (ps + [pc])[..|ps|] == ps;
  }

  lemma {:induction false} SkipBlankPara(paras: seq<string>, i: nat, max: int)
    requires i < |paras| && Strip(paras[i]) == []
    ensures Fold(Pieces(paras[..i + 1], max), max) == Fold(Pieces(paras[..i], max), max)
  {
    PrefixSnoc(paras, i);
    assert Pieces(paras[..i], max) + [] == Pieces(paras[..i], max);
  }

  lemma {:induction false} FitParaStep(paras: seq<string>, i: nat, max: int)
    requires i < |paras| && Strip(paras[i]) != [] && |Strip(paras[i])| <= max
    ensures Fold(Pieces(paras[..i + 1], max), max)
         == Step(Fold(Pieces(paras[..i], max), max), Piece(Strip(paras[i]), "\n\n"), max)
  {
    PrefixSnoc(paras, i);
    FoldSnoc(Pieces(paras[..i], max), Piece(Strip(paras[i]), "\n\n"), max);
  }

  lemma {:induction false} SentenceStep(done: seq<Piece>, sentences: seq<string>, j: nat, max: int)
    requires j < |sentences|
    ensures Fold(done + SentencePieces(sentences[..j + 1]), max)
         == Step(Fold(done + SentencePieces(sentences[..j]), max), Piece(sentences[j], " "), max)
  {
    PrefixSnoc(sentences, j);
    var ps := done + SentencePieces(sentences[..j]);
    assert done + SentencePieces(sentences[..j + 1]) == ps + [Piece(sentences[j], " ")];
    FoldSnoc(ps, Piece(sentences[j], " "), max);
  }

  lemma {:induction false} OversizeParaDone(paras: seq<string>, i: nat, max: int)
    requires i < |paras| && Strip(paras[i]) != [] && |Strip(paras[i])| > max
    ensures var ss := SplitBySentences(Strip(paras[i]));
      Pieces(paras[..i], max) + SentencePieces(ss[..|ss|]) == Pieces(paras[..i + 1], max)
  {
    var ss := SplitBySentences(Strip(paras[i]));
    TakeAll(ss);
    PiecesPrefixSnoc(paras, i, max);
    assert ParaPieces(paras[i], max) == SentencePieces(ss);
  }

  lemma {:induction false} PiecesPrefixSnoc(paras: seq<string>, i: nat, max: int)
    requires i < |paras|
    ensures Pieces(paras[..i + 1], max) == Pieces(paras[..i], max) + ParaPieces(paras[i], max)
  {
    var pre := paras[..i + 1];
    PrefixSnoc(paras, i);
    assert pre[..|pre| - 1] == paras[..i] && pre[|pre| - 1] == paras[i];
  }

  lemma {:induction false} NoSentencesYet(done: seq<Piece>, sentences: seq<string>)
    ensures done + SentencePieces(sentences[..0]) == done
  {
    assert sentences[..0] == [];
  }


  /** All the text of the stream, separators included. */
  function Flat(ps: seq<Piece>): string {
    if ps == [] then [] else Flat(ps[..|ps| - 1]) + ps[|ps| - 1].text + ps[|ps| - 1].sep
  }

  lemma {:induction false} FlatAppend(ps: seq<Piece>, qs: seq<Piece>)
    ensures Flat(ps + qs) == Flat(ps) + Flat(qs)
    decreases |qs|
  {
    if qs == [] {
      assert ps + qs == ps;
    } else {
      var n := |qs| - 1;
      assert (ps + qs)[..|ps + qs| - 1] == ps + qs[..n];
      assert (ps + qs)[|ps + qs| - 1] == qs[n];
      FlatAppend(ps, qs[..n]);
    }
  }

  lemma {:induction false} FlatNonSpaceAppend(ps: seq<Piece>, qs: seq<Piece>)
    ensures NonSpace(Flat(ps + qs)) == NonSpace(Flat(ps)) + NonSpace(Flat(qs))
  {
    FlatAppend(ps, qs);
    NonSpaceAppend(Flat(ps), Flat(qs));
  }

  lemma {:induction false} SeparatorsAreSpace()
    ensures AllSpace(" ") && AllSpace("\n\n")
  {
    assert IsSpace(' ') && IsSpace('\n');
  }

  /** A separator adds no non-whitespace character. */
  lemma {:induction false} NonSpaceSep(t: string, sep: string)
    requires sep == " " || sep == "\n\n"
    ensures NonSpace(t + sep) == NonSpace(t)
  {
    NonSpaceAppend(t, sep);
    SeparatorsAreSpace();
    NonSpaceEmpty(sep);
  }

  lemma {:induction false} NonSpaceSnoc(ss: seq<string>, x: string)
    ensures NonSpace(Concat(ss + [x])) == NonSpace(Concat(ss)) + NonSpace(x)
  {
    ConcatSnoc(ss, x);
    NonSpaceAppend(Concat(ss), x);
  }

  lemma {:induction false} NonSpaceLast(ss: seq<string>)
    requires ss != []
    ensures NonSpace(Concat(ss)) == NonSpace(Concat(ss[..|ss| - 1])) + NonSpace(ss[|ss| - 1])
  {
    assert ss == ss[..|ss| - 1] + [ss[|ss| - 1]];
    NonSpaceSnoc(ss[..|ss| - 1], ss[|ss| - 1]);
  }

  lemma {:induction false} SentencePiecesOrigin(sentences: seq<string>)
    ensures forall q :: q in SentencePieces(sentences) ==> q.sep == " " && q.text in sentences
  {
    if sentences != [] {
      var n := |sentences| - 1;
      var init := sentences[..n];
      SentencePiecesOrigin(init);
      forall q: Piece | q in SentencePieces(init) ensures q.text in sentences {
        assert q.text in init;
      }
    }
  }

  lemma {:induction false} SentencePiecesNonSpace(sentences: seq<string>)
    ensures NonSpace(Flat(SentencePieces(sentences))) == NonSpace(Concat(sentences))
  {
    if sentences != [] {
      var n := |sentences| - 1;
      var init, last := sentences[..n], sentences[n];
      SentencePiecesNonSpace(init);
      var ps := SentencePieces(init);
      FlatSnoc(ps, Piece(last, " "));
      NonSpaceAppend(Flat(ps), last + " ");
      NonSpaceSep(last, " ");
      NonSpaceLast(sentences);
    }
  }

  lemma {:induction false} ParaPiecesWellFormed(para: string, max: int)
    ensures forall q :: q in ParaPieces(para, max) ==> WellFormedPiece(q, max)
  {
    StrippedParaWellFormed(Strip(para), max);
  }

  lemma {:induction false} StrippedParaWellFormed(p: string, max: int)
    requires IsStripped(p)
    ensures forall q :: q in StrippedParaPieces(p, max) ==> WellFormedPiece(q, max)
  {
    if p != [] && |p| > max {
      var ss := SplitBySentences(p);
      SentencePiecesOrigin(ss);
      SplitBySentencesShape(p);
      forall q | q in SentencePieces(ss) ensures WellFormedPiece(q, max) {
        var k :| 0 <= k < |ss| && ss[k] == q.text;
      }
    } else if p != [] {
      assert StrippedParaPieces(p, max) == [Piece(p, "\n\n")];
    }
  }

  lemma {:induction false} ParaPiecesOrigin(para: string, max: int)
    ensures forall q :: q in ParaPieces(para, max) && q.sep == " " ==>
      |Strip(para)| > max && q.text in SplitBySentences(Strip(para))
  {
    StrippedParaOrigin(Strip(para), max);
  }

  lemma {:induction false} StrippedParaOrigin(p: string, max: int)
    ensures forall q :: q in StrippedParaPieces(p, max) && q.sep == " " ==>
      |p| > max && q.text in SplitBySentences(p)
  {
    if p != [] && |p| > max {
      SentencePiecesOrigin(SplitBySentences(p));
    } else {
      assert " " != "\n\n" by { assert |" "| != |"\n\n"|; }
    }
  }

  lemma {:induction false} ParaPiecesNonSpace(para: string, max: int)
    ensures NonSpace(Flat(ParaPieces(para, max))) == NonSpace(para)
  {
    var p := Strip(para);
    var pcs := ParaPieces(para, max);
    if p == [] {
      assert pcs == [];
      assert Flat(pcs) == [];
    } else if |p| > max {
      assert pcs == SentencePieces(SplitBySentences(p));
      LongParaNonSpace(p, max);
    } else {
      assert pcs == [Piece(p, "\n\n")];
      ShortParaNonSpace(p);
    }
    assert NonSpace(Flat(pcs)) == NonSpace(p);
    NonSpaceStrip(para);
  }

  lemma {:induction false} LongParaNonSpace(p: string, max: int)
    ensures NonSpace(Flat(SentencePieces(SplitBySentences(p)))) == NonSpace(p)
  {
    var ss := SplitBySentences(p);
    SentencePiecesNonSpace(ss);
    SplitBySentencesNonSpace(p);
  }

  lemma {:induction false} ShortParaNonSpace(p: string)
    ensures NonSpace(Flat([Piece(p, "\n\n")])) == NonSpace(p)
  {
    var pc := Piece(p, "\n\n");
    assert [pc][..0] == [];
    assert Flat([pc]) == Flat([]) + p + "\n\n";
    assert Flat([pc]) == p + "\n\n";
    NonSpaceSep(p, "\n\n");
  }

  lemma {:induction false} PiecesWellFormed(paras: seq<string>, max: int)
    ensures forall q :: q in Pieces(paras, max) ==> WellFormedPiece(q, max)
  {
    if paras != [] {
      var n := |paras| - 1;
      PiecesWellFormed(paras[..n], max);
      ParaPiecesWellFormed(paras[n], max);
    }
  }

  ghost predicate FromOversizePara(t: string, paras: seq<string>, max: int) {
    exists para :: para in paras && |Strip(para)| > max && t in SplitBySentences(Strip(para))
  }

  lemma {:induction false} PiecesOrigin(paras: seq<string>, max: int)
    ensures forall q :: q in Pieces(paras, max) && q.sep == " " ==> FromOversizePara(q.text, paras, max)
  {
    if paras != [] {
      var n := |paras| - 1;
      var init, last := paras[..n], paras[n];
      PiecesOrigin(init, max);
      ParaPiecesOrigin(last, max);
      forall q: Piece | q in Pieces(paras, max) && q.sep == " " ensures FromOversizePara(q.text, paras, max) {
        if q in Pieces(init, max) {
          var para :| para in init && |Strip(para)| > max && q.text in SplitBySentences(Strip(para));
          assert para in paras;
        } else {
          assert last in paras;
        }
      }
    }
  }

  lemma {:induction false} PiecesNonSpace(paras: seq<string>, max: int)
    ensures NonSpace(Flat(Pieces(paras, max))) == NonSpace(Concat(paras))
  {
    if paras != [] {
      var n := |paras| - 1;
      var init, last := paras[..n], paras[n];
      PiecesNonSpace(init, max);
      ParaPiecesNonSpace(last, max);
      var ps, qs := Pieces(init, max), ParaPieces(last, max);
      assert Pieces(paras, max) == ps + qs;
      FlatNonSpaceAppend(ps, qs);
      NonSpaceLast(paras);
    }
  }

  /** Chunks are at most `max` long unless they are one sentence of the
      stream (which only an oversize paragraph contributes). */
  ghost predicate SizeOk(c: string, ps: seq<Piece>, max: int) {
    |c| <= max || exists q :: q in ps && q.sep == " " && q.text == c
  }

  /** Sealed chunks are non-empty, stripped and of acceptable size. */
  ghost predicate ChunksOk(chunks: seq<string>, ps: seq<Piece>, max: int) {
    forall k :: 0 <= k < |chunks| ==> chunks[k] != [] && IsStripped(chunks[k]) && SizeOk(chunks[k], ps, max)
  }

  /** The open chunk starts with a non-whitespace character, and stripping it
      gives a chunk of acceptable size. */
  ghost predicate CurrentOk(current: string, ps: seq<Piece>, max: int) {
    current == [] || (!IsSpace(current[0]) && SizeOk(Strip(current), ps, max))
  }

  /** Packing neither loses nor adds non-whitespace characters. */
  predicate ContentOk(st: PackState, ps: seq<Piece>) {
    NonSpace(Concat(st.chunks) + st.current) == NonSpace(Flat(ps))
  }

  /** What the packing loop keeps true after consuming the pieces `ps`. */
  ghost predicate PackInv(st: PackState, ps: seq<Piece>, max: int) {
    ChunksOk(st.chunks, ps, max) && CurrentOk(st.current, ps, max) && ContentOk(st, ps)
  }

  lemma {:induction false} SizeOkGrow(c: string, ps: seq<Piece>, pc: Piece, max: int)
    requires SizeOk(c, ps, max)
    ensures SizeOk(c, ps + [pc], max)
  {
    if |c| > max {
      var q :| q in ps && q.sep == " " && q.text == c;
      assert q in ps + [pc];
    }
  }

  lemma {:induction false} StepKeepsChunks(st: PackState, ps: seq<Piece>, pc: Piece, max: int)
    requires ChunksOk(st.chunks, ps, max) && CurrentOk(st.current, ps, max)
    ensures ChunksOk(Step(st, pc, max).chunks, ps + [pc], max)
  {
    var st' := Step(st, pc, max);
    var sealed := st.current != [] && |st.current| + |pc.text| + |pc.sep| > max;
    assert st'.chunks == st.chunks + (if sealed then [Strip(st.current)] else []);
    forall k | 0 <= k < |st'.chunks|
      ensures st'.chunks[k] != [] && IsStripped(st'.chunks[k]) && SizeOk(st'.chunks[k], ps + [pc], max)
    {
      if k < |st.chunks| {
        assert st'.chunks[k] == st.chunks[k];
        SizeOkGrow(st.chunks[k], ps, pc, max);
      } else {
        assert sealed && st'.chunks[k] == Strip(st.current);
        StripEmpty(st.current);
        SizeOkGrow(Strip(st.current), ps, pc, max);
      }
    }
  }

  lemma {:induction false} StepFitKeepsCurrent(st: PackState, ps: seq<Piece>, pc: Piece, max: int)
    requires (st.current == [] || !IsSpace(st.current[0])) && WellFormedPiece(pc, max)
    requires |st.current| + |pc.text| + |pc.sep| <= max
    ensures CurrentOk(Step(st, pc, max).current, ps + [pc], max)
  {
    var cur := st.current + pc.text + pc.sep;
    assert Step(st, pc, max).current == cur;
    assert cur[0] == if st.current == [] then pc.text[0] else st.current[0];
  }

  lemma {:induction false} StepOverflowKeepsCurrent(st: PackState, ps: seq<Piece>, pc: Piece, max: int)
    requires WellFormedPiece(pc, max)
    requires |st.current| + |pc.text| + |pc.sep| > max
    ensures CurrentOk(Step(st, pc, max).current, ps + [pc], max)
  {
    assert Step(st, pc, max).current == [] + pc.text + pc.sep;
    SeparatorsAreSpace();
    StripSurrounded([], pc.text, pc.sep);
    if pc.sep == " " {
      assert pc in ps + [pc];
    }
  }

  lemma {:induction false} FlatSnoc(ps: seq<Piece>, pc: Piece)
    ensures Flat(ps + [pc]) == Flat(ps) + (pc.text + pc.sep)
  {
    assert (ps + [pc])[..|ps|] == ps;
  }

  lemma {:induction false} StepFitKeepsContent(st: PackState, ps: seq<Piece>, pc: Piece, max: int)
    requires ContentOk(st, ps)
    requires |st.current| + |pc.text| + |pc.sep| <= max
    ensures ContentOk(Step(st, pc, max), ps + [pc])
  {
    var tail := pc.text + pc.sep;
    var before := Concat(st.chunks) + st.current;
    var st' := Step(st, pc, max);
    assert st'.chunks == st.chunks && st'.current == st.current + pc.text + pc.sep;
    assert Concat(st'.chunks) + st'.current == before + tail;
    FlatSnoc(ps, pc);
    NonSpaceAppend(before, tail);
    NonSpaceAppend(Flat(ps), tail);
  }

  lemma {:induction false} StepOverflowKeepsContent(st: PackState, ps: seq<Piece>, pc: Piece, max: int)
    requires ContentOk(st, ps)
    requires |st.current| + |pc.text| + |pc.sep| > max
    ensures ContentOk(Step(st, pc, max), ps + [pc])
  {
    var tail := pc.text + pc.sep;
    var sealed := if st.current != [] then st.chunks + [Strip(st.current)] else st.chunks;
    assert NonSpace(Concat(sealed)) == NonSpace(Concat(st.chunks) + st.current) by {
      NonSpaceAppend(Concat(st.chunks), st.current);
      if st.current != [] {
        NonSpaceSnoc(st.chunks, Strip(st.current));
        NonSpaceStrip(st.current);
      } else {
        assert Concat(st.chunks) + st.current == Concat(st.chunks);
      }
    }
    FlatSnoc(ps, pc);
    NonSpaceAppend(Concat(sealed), tail);
    NonSpaceAppend(Flat(ps), tail);
  }

  lemma {:induction false} StepPreservesInv(st: PackState, ps: seq<Piece>, pc: Piece, max: int)
    requires PackInv(st, ps, max) && WellFormedPiece(pc, max)
    ensures PackInv(Step(st, pc, max), ps + [pc], max)
  {
    StepKeepsChunks(st, ps, pc, max);
    if |st.current| + |pc.text| + |pc.sep| <= max {
      StepFitKeepsCurrent(st, ps, pc, max);
      StepFitKeepsContent(st, ps, pc, max);
    } else {
      StepOverflowKeepsCurrent(st, ps, pc, max);
      StepOverflowKeepsContent(st, ps, pc, max);
    }
  }

  lemma {:induction false} FoldInv(ps: seq<Piece>, max: int)
    requires forall q :: q in ps ==> WellFormedPiece(q, max)
    ensures PackInv(Fold(ps, max), ps, max)
  {
    if ps == [] {
      assert Concat([]) + [] == [];
    } else {
      var n := |ps| - 1;
      assert ps[n] in ps;
      assert ps[..n] + [ps[n]] == ps;
      FoldInv(ps[..n], max);
      StepPreservesInv(Fold(ps[..n], max), ps[..n], ps[n], max);
    }
  }

  lemma {:induction false} FinishChunks(st: PackState, ps: seq<Piece>, max: int)
    requires ChunksOk(st.chunks, ps, max) && CurrentOk(st.current, ps, max)
    ensures forall c :: c in Finish(st) ==> c != [] && IsStripped(c) && SizeOk(c, ps, max)
  {
    forall c | c in Finish(st) ensures c != [] && IsStripped(c) && SizeOk(c, ps, max) {
      if c in st.chunks {
        SealedOk(st.chunks, ps, max, c);
      } else {
        LastOk(st.current, ps, max);
      }
    }
  }

  lemma {:induction false} SealedOk(chunks: seq<string>, ps: seq<Piece>, max: int, c: string)
    requires ChunksOk(chunks, ps, max) && c in chunks
    ensures c != [] && IsStripped(c) && SizeOk(c, ps, max)
  {
    var k :| 0 <= k < |chunks| && chunks[k] == c;
  }

  lemma {:induction false} LastOk(current: string, ps: seq<Piece>, max: int)
    requires CurrentOk(current, ps, max) && Strip(current) != []
    ensures Strip(current) != [] && IsStripped(Strip(current)) && SizeOk(Strip(current), ps, max)
  {
    assert current != [];
  }

  lemma {:induction false} FinishContent(st: PackState, ps: seq<Piece>, max: int)
    requires NonSpace(Concat(st.chunks) + st.current) == NonSpace(Flat(ps))
    ensures NonSpace(Concat(Finish(st))) == NonSpace(Flat(ps))
  {
    var cur := Strip(st.current);
    NonSpaceAppend(Concat(st.chunks), st.current);
    NonSpaceStrip(st.current);
    if cur != [] {
      NonSpaceSnoc(st.chunks, cur);
    } else {
      NonSpaceEmpty(cur);
    }
  }

  lemma {:induction false} SentenceSizeOk(c: string, text: string, max: int)
    requires SizeOk(c, Pieces(Paragraphs(text), max), max)
    ensures |c| <= max || OversizeSentence(c, text, max)
  {
    if |c| > max {
      PiecesOrigin(Paragraphs(text), max);
      var q :| q in Pieces(Paragraphs(text), max) && q.sep == " " && q.text == c;
    }
  }

  /** The properties `chunk_text` promises, proved on the specification. */
  lemma {:induction false} ChunksProperties(text: string, max: int)
    ensures AllSpace(text) <==> Chunks(text, max) == []
    ensures forall c :: c in Chunks(text, max) ==> c != [] && IsStripped(c)
    ensures forall c :: c in Chunks(text, max) ==> |c| <= max || OversizeSentence(c, text, max)
    ensures NonSpace(Concat(Chunks(text, max))) == NonSpace(text)
  {
    StripEmpty(text);
    NonSpaceEmpty(text);
    if Strip(text) != [] {
      var paras := Paragraphs(text);
      var ps := Pieces(paras, max);
      PiecesWellFormed(paras, max);
      FoldInv(ps, max);
      FinishChunks(Fold(ps, max), ps, max);
      FinishContent(Fold(ps, max), ps, max);
      forall c | c in Chunks(text, max) ensures |c| <= max || OversizeSentence(c, text, max) {
        SentenceSizeOk(c, text, max);
      }
      PiecesNonSpace(paras, max);
      SplitNonSpace(BlankLine, Strip(text));
      NonSpaceStrip(text);
      NonSpaceEmpty(Concat(Chunks(text, max)));
    }
  }

  /** The cleaned paragraphs, each followed by the blank line the packing
      loop appends after it. */
  function Terminated(paras: seq<string>): string {
    if paras == [] then [] else Terminated(paras[..|paras| - 1]) + paras[|paras| - 1] + "\n\n"
  }

  lemma {:induction false} FoldAllFit(paras: seq<string>, max: int)
    requires |Terminated(StrippedNonEmpty(paras))| <= max
    ensures Fold(Pieces(paras, max), max) == PackState([], Terminated(StrippedNonEmpty(paras)))
  {
    if paras != [] {
      var n := |paras| - 1;
      var init, last := paras[..n], paras[n];
      var p := Strip(last);
      var cleaned := StrippedNonEmpty(init);
      if p == [] {
        AppendEmpty(cleaned);
        assert StrippedNonEmpty(paras) == cleaned;
        FoldAllFit(init, max);
        AppendEmpty(Pieces(init, max));
        assert Pieces(paras, max) == Pieces(init, max);
      } else {
        assert StrippedNonEmpty(paras) == cleaned + [p];
        SnocParts(cleaned, p);
        assert Terminated(cleaned + [p]) == Terminated(cleaned) + p + "\n\n";
        FoldAllFit(init, max);
        assert ParaPieces(last, max) == [Piece(p, "\n\n")];
        FoldSnoc(Pieces(init, max), Piece(p, "\n\n"), max);
      }
    }
  }

  lemma {:induction false} JoinSnoc(ss: seq<string>, x: string, sep: string)
    requires ss != []
    ensures Join(ss + [x], sep) == Join(ss, sep) + sep + x
  {
    if |ss| == 1 {
      assert (ss + [x])[1..] == [x];
    } else {
      assert (ss + [x])[1..] == ss[1..] + [x];
      JoinSnoc(ss[1..], x, sep);
    }
  }

  lemma {:induction false} TerminatedJoin(ss: seq<string>)
    requires ss != []
    ensures Terminated(ss) == Join(ss, "\n\n") + "\n\n"
  {
    var n := |ss| - 1;
    var init, x := ss[..n], ss[n];
    assert ss == init + [x];
    if init != [] {
      TerminatedJoin(init);
      JoinSnoc(init, x, "\n\n");
    }
  }

  lemma {:induction false} JoinEnds(ss: seq<string>, sep: string)
    requires ss != [] && forall k :: 0 <= k < |ss| ==> ss[k] != []
    ensures Join(ss, sep) != []
    ensures Join(ss, sep)[0] == ss[0][0]
    ensures Join(ss, sep)[|Join(ss, sep)| - 1] == ss[|ss| - 1][|ss[|ss| - 1]| - 1]
  {
    if |ss| > 1 {
      JoinEnds(ss[1..], sep);
    }
  }

  lemma {:induction false} JoinStripped(ss: seq<string>, sep: string)
    requires ss != [] && forall k :: 0 <= k < |ss| ==> ss[k] != [] && IsStripped(ss[k])
    ensures Join(ss, sep) != [] && IsStripped(Join(ss, sep))
  {
    JoinEnds(ss, sep);
    assert ss[0] != [] && IsStripped(ss[0]);
    assert ss[|ss| - 1] != [] && IsStripped(ss[|ss| - 1]);
  }

  /** When the cleaned paragraphs, each followed by its blank line, fit in one
      chunk, the chunker returns exactly one chunk: the paragraphs joined by
      blank lines. */
  lemma {:induction false} WholeTextFits(text: string, max: int)
    requires StrippedNonEmpty(Paragraphs(text)) != []
    requires |Terminated(StrippedNonEmpty(Paragraphs(text)))| <= max
    ensures Chunks(text, max) == [Join(StrippedNonEmpty(Paragraphs(text)), "\n\n")]
  {
    var paras := Paragraphs(text);
    var cleaned := StrippedNonEmpty(paras);
    var joined := Join(cleaned, "\n\n");
    assert Strip(text) != [] by {
      if Strip(text) == [] {
        BlankTextNoParagraphs(text);
      }
    }
    assert Fold(Pieces(paras, max), max) == PackState([], joined + "\n\n") by {
      FoldAllFit(paras, max);
      TerminatedJoin(cleaned);
    }
    assert Strip(joined + "\n\n") == joined by {
      StrippedNonEmptyShape(paras);
      JoinStripped(cleaned, "\n\n");
      SeparatorsAreSpace();
      StripSurrounded([], joined, "\n\n");
      EmptyAppend(joined);
    }
    assert joined != [] by {
      StrippedNonEmptyShape(paras);
      assert |Join(cleaned, "\n\n")| >= |cleaned[0]|;
    }
    assert Chunks(text, max) == Finish(PackState([], joined + "\n\n"));
    EmptyAppend([joined]);
  }

  /** A non-blank text with no blank line and no sentence boundary that is
      longer than the limit comes back whole, as a single oversize chunk. */
  lemma {:induction false} OneOversizeSentence(text: string, max: int)
    requires Strip(text) != [] && |Strip(text)| > max
    requires Paragraphs(text) == [Strip(text)]
    requires Split(SentenceEnd, Strip(text)) == [Strip(text)]
    ensures Chunks(text, max) == [Strip(text)]
  {
    var p := Strip(text);
    var pc := Piece(p, " ");
    StripIdempotent(text);
    SingleSentence(p);
    SingleOversizePiece(p, max);
    FoldSingle(pc, max);
    assert Strip(p + " ") == p by {
      SeparatorsAreSpace();
      StripSurrounded([], p, " ");
      EmptyAppend(p);
    }
  }

  lemma {:induction false} SingleSentence(p: string)
    requires Strip(p) == p && p != [] && Split(SentenceEnd, p) == [p]
    ensures SplitBySentences(p) == [p]
  {
    assert [p][..0] == [];
    assert StrippedNonEmpty([p]) == StrippedNonEmpty([]) + [p];
  }

  lemma {:induction false} SingleOversizePiece(p: string, max: int)
    requires Strip(p) == p && p != [] && |p| > max && SplitBySentences(p) == [p]
    ensures Pieces([p], max) == [Piece(p, " ")]
  {
    assert [p][..0] == [];
    assert ParaPieces(p, max) == SentencePieces([p]);
    assert SentencePieces([p]) == SentencePieces([]) + [Piece(p, " ")];
    EmptyAppend([Piece(p, " ")]);
    assert Pieces([p], max) == Pieces([], max) + ParaPieces(p, max);
  }

  lemma {:induction false} FoldSingle(pc: Piece, max: int)
    requires |pc.text| + |pc.sep| > max
    ensures Fold([pc], max) == PackState([], pc.text + pc.sep)
  {
    assert [pc][..0] == [];
    assert Fold([pc], max) == Step(PackState([], []), pc, max);
  }

  /** A blank text has no non-blank paragraph. */
  lemma {:induction false} BlankTextNoParagraphs(text: string)
    requires Strip(text) == []
    ensures StrippedNonEmpty(Paragraphs(text)) == []
  {
    var e: seq<string> := [[]];
    assert Paragraphs(text) == e by {
      assert RegexSplit.SplitFrom(BlankLine, Strip(text), 0, 0) == [Strip(text)[0..]];
    }
    assert e[..0] == [];
    assert Strip(e[0]) == [];
  }
}
