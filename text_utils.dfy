/** The structured loader's helpers: the Arabic display repair guard
    `fix_arabic_text`, the per-page normalizer `clean_text` and the strict
    article segmenter `split_text_by_articles`. */
module TextUtils {
  import opened Wrappers
  import opened Text
  import Lines
  import Regex
  import opened Segments
  import opened Docs

  // ----------------------------------------------------------- fix_arabic_text

  /** A code point of the Arabic block, `[؀-ۿ]`. */
  predicate IsArabicBlock(c: char) {
    '\U{0600}' <= c <= '\U{06FF}'
  }

  predicate HasArabic(s: string) {
    exists i :: 0 <= i < |s| && IsArabicBlock(s[i])
  }

  /** `fix_arabic_text(text)`. `text` is `None` for Python's `None`; `repair`
      stands for `get_display(arabic_reshaper.reshape(text))`, with `None`
      meaning that it raised. */
  function FixArabic(text: Option<string>, repair: string -> Option<string>): (r: string)
    ensures text.None? || text.value == "" ==> r == ""
    ensures text.Some? && !HasArabic(text.value) ==> r == text.value
    ensures text.Some? && HasArabic(text.value) && repair(text.value).None? ==> r == text.value
    ensures text.Some? && HasArabic(text.value) && repair(text.value).Some? ==> r == repair(text.value).value
  {
    match text
    case None => ""
    case Some(t) =>
      if t == "" then ""
      else if HasArabic(t) then
        match repair(t)
        case None => t
        case Some(fixed) => fixed
      else t
  }

  /** The repair is only ever applied to text holding Arabic: whatever the
      repair does, text without Arabic comes back unchanged, and so does any
      text when the repair fails everywhere. */
  lemma FixArabicGuards(text: string, repair: string -> Option<string>)
    ensures !HasArabic(text) ==> FixArabic(Some(text), repair) == text
    ensures (forall s :: repair(s).None?) ==> FixArabic(Some(text), repair) == text
    ensures FixArabic(Some(text), repair) == text || (HasArabic(text) && repair(text) == Some(FixArabic(Some(text), repair)))
  {}

  // ---------------------------------------------------------------- clean_text

  /** `clean_text`: strip every line; drop empty lines and lines made only of
      digits, whatever their length. */
  method CleanText(text: string) returns (cleaned: string)
    ensures cleaned == Lines.Normalize(text, IsDigits)
  {
    var lines := Split(text, '\n');
    var cleanedLines: seq<string> := [];
    var i := 0;
    while i < |lines|
      invariant 0 <= i <= |lines|
      invariant cleanedLines == Lines.Keep(lines[..i], IsDigits)
    {
      var line := Strip(lines[i]);
      assert lines[..i + 1][..i] == lines[..i];
      if line != "" && !IsDigits(line) {
        cleanedLines := cleanedLines + [line];
      }
      i := i + 1;
    }
    assert lines[..|lines|] == lines;
    cleaned := Join(cleanedLines, '\n');
  }

  /** The cleaned page has no empty line and no digit-only line, each line is
      stripped, and cleaning it again changes nothing. */
  lemma CleanTextShape(text: string)
    ensures var r := Lines.Normalize(text, IsDigits);
      r == "" || forall l :: l in Split(r, '\n') ==> l != "" && Strip(l) == l && !IsDigits(l)
    ensures Lines.Normalize(Lines.Normalize(text, IsDigits), IsDigits) == Lines.Normalize(text, IsDigits)
  {
    Lines.NormalizeShape(text, IsDigits);
    Lines.NormalizeIdempotent(text, IsDigits);
  }

  /** Line `i` survives exactly when, stripped, it is neither empty nor made
      only of digits; the survivors appear stripped and in order. */
  lemma CleanTextKeepsExactly(text: string)
    ensures var lines := Split(text, '\n');
      var idx := Lines.KeptIndices(lines, IsDigits);
      var out := Lines.Keep(lines, IsDigits);
      && Lines.Normalize(text, IsDigits) == Join(out, '\n')
      && |idx| == |out|
      && (forall k :: 0 <= k < |idx| ==> idx[k] < |lines| && out[k] == Strip(lines[idx[k]]))
      && (forall k, m :: 0 <= k < m < |idx| ==> idx[k] < idx[m])
      && (forall i :: 0 <= i < |lines| ==> (i in idx <==> !(Strip(lines[i]) == "" || IsDigits(Strip(lines[i])))))
  {
    Lines.KeepExact(Split(text, '\n'), IsDigits);
  }

  // ---------------------------------------------------- split_text_by_articles

  const ArticleWord: string := "Article"
  const ArabicWord: string := "\U{0627}\U{0644}\U{0645}\U{0627}\U{062F}\U{0629}"

  /** `[؀-ۿ0-9]`. */
  predicate IsArabicNumeral(c: char) {
    IsArabicBlock(c) || ('0' <= c <= '9')
  }

  /** One alternative of the heading group: its word and the class of the
      characters of the number after it. */
  datatype Alternative = Alternative(word: string, numeral: char -> bool)

  /** `Article\s+\d+|المادة\s+[؀-ۿ0-9]+`, in the order the regex tries them. */
  const Alternatives: seq<Alternative> :=
    [Alternative(ArticleWord, IsDecimal), Alternative(ArabicWord, IsArabicNumeral)]

  /** Every word starts with a character other than whitespace, and no
      numeral is whitespace. */
  predicate SolidAlternatives(alts: seq<Alternative>) {
    forall k :: 0 <= k < |alts| ==>
      && alts[k].word != "" && !IsSpace(alts[k].word[0])
      && forall c :: alts[k].numeral(c) ==> !IsSpace(c)
  }

  lemma AlternativesSolid()
    ensures SolidAlternatives(Alternatives)
  {
    forall c ensures IsDecimal(c) ==> !IsSpace(c) {
      DecimalNotSpace(c);
    }
  }

  /** The end of the heading matched at `q` by the first of `alts` whose
      word occurs there. The two words begin with different letters, so
      once one is found the other cannot match; the greedy runs are followed
      by nothing in the pattern, so the longest runs give the match. */
  function HeadingEndAmong(t: string, q: nat, alts: seq<Alternative>): (r: Option<nat>)
    requires q <= |t| && SolidAlternatives(alts)
    ensures r.Some? ==> q < r.value <= |t| && !IsSpace(t[q]) && EndsSolid(t, r.value)
    decreases |alts|
  {
    if |alts| == 0 then None
    else if StartsAt(t, q, alts[0].word) then
      assert t[q] == alts[0].word[0];
      TailRun(t, q + |alts[0].word|, alts[0].numeral)
    else
      HeadingEndAmong(t, q, alts[1..])
  }

  /** The end of `Article\s+\d+|المادة\s+[؀-ۿ0-9]+` matched at `q`. */
  function HeadingEnd(t: string, q: nat): (r: Option<nat>)
    requires q <= |t|
    ensures r.Some? ==> q < r.value <= |t|
    ensures r.Some? ==> !IsSpace(t[q]) && EndsSolid(t, r.value)
  {
    AlternativesSolid();
    HeadingEndAmong(t, q, Alternatives)
  }

  /** `\s+` then a non-empty greedy run of `cls`, from `k`. */
  function TailRun(t: string, k: nat, cls: char -> bool): (r: Option<nat>)
    requires k <= |t|
    requires forall c :: cls(c) ==> !IsSpace(c)
    ensures r.Some? ==> k < r.value <= |t| && EndsSolid(t, r.value)
  {
    var s := RunEnd(t, k, IsSpace);
    if s == k then None
    else
      var d := RunEnd(t, s, cls);
      if d == s then None
      else
        assert cls(t[d - 1]);
        Some(d)
  }

  /** `\s+` followed by a greedy `cls` run matches at `k` exactly when the
      text there is whitespace and then a non-empty run of `cls`; the match
      ends where that run stops. */
  lemma TailRunExact(t: string, k: nat, cls: char -> bool)
    requires k <= |t|
    requires forall c :: cls(c) ==> !IsSpace(c)
    ensures TailRun(t, k, cls).Some? <==> exists s: nat, e: nat :: SpaceThenRun(t, k, s, e, cls)
    ensures forall s: nat, e: nat :: SpaceThenRun(t, k, s, e, cls) ==> TailRun(t, k, cls) == Some(e)
  {
    var s := RunEnd(t, k, IsSpace);
    if TailRun(t, k, cls).Some? {
      assert SpaceThenRun(t, k, s, RunEnd(t, s, cls), cls);
    }
    forall s': nat, e: nat | SpaceThenRun(t, k, s', e, cls)
      ensures TailRun(t, k, cls) == Some(e)
    {
      SpaceThenRunUnique(t, k, s', e, cls);
    }
  }

  /** The first alternative whose word occurs at `q` decides the match. */
  lemma {:induction false} HeadingEndAmongFirst(t: string, q: nat, alts: seq<Alternative>, k: nat)
    requires q <= |t| && SolidAlternatives(alts) && k < |alts|
    requires StartsAt(t, q, alts[k].word) && forall j :: 0 <= j < k ==> !StartsAt(t, q, alts[j].word)
    ensures HeadingEndAmong(t, q, alts) == TailRun(t, q + |alts[k].word|, alts[k].numeral)
    decreases k
  {
    if k > 0 {
      var rest := alts[1..];
      assert rest[k - 1] == alts[k];
      forall j | 0 <= j < k - 1 ensures !StartsAt(t, q, rest[j].word) {
        assert rest[j] == alts[j + 1];
      }
      HeadingEndAmongFirst(t, q, rest, k - 1);
    }
  }

  /** With no alternative's word at `q`, nothing matches. */
  lemma {:induction false} HeadingEndAmongNone(t: string, q: nat, alts: seq<Alternative>)
    requires q <= |t| && SolidAlternatives(alts)
    requires forall k :: 0 <= k < |alts| ==> !StartsAt(t, q, alts[k].word)
    ensures HeadingEndAmong(t, q, alts).None?
    decreases |alts|
  {
    if |alts| > 0 {
      var rest := alts[1..];
      forall j | 0 <= j < |rest| ensures !StartsAt(t, q, rest[j].word) {
        assert rest[j] == alts[j + 1];
      }
      HeadingEndAmongNone(t, q, rest);
    }
  }

  /** `Article\s+\d+|المادة\s+[؀-ۿ0-9]+` at `q`: it matches exactly when
      one of the two words occurs there followed by whitespace and a
      non-empty run of its numeral class, and it ends where that run stops.
      The words differ in their first letter, so at most one can occur. */
  lemma HeadingEndExact(t: string, q: nat)
    requires q <= |t|
    ensures var a, b := q + |ArticleWord|, q + |ArabicWord|;
      HeadingEnd(t, q).Some? <==>
        || (StartsAt(t, q, ArticleWord) && exists s: nat, e: nat :: SpaceThenRun(t, a, s, e, IsDecimal))
        || (StartsAt(t, q, ArabicWord) && exists s: nat, e: nat :: SpaceThenRun(t, b, s, e, IsArabicNumeral))
    ensures var a := q + |ArticleWord|;
      forall s: nat, e: nat :: StartsAt(t, q, ArticleWord) && SpaceThenRun(t, a, s, e, IsDecimal) ==> HeadingEnd(t, q) == Some(e)
    ensures var b := q + |ArabicWord|;
      forall s: nat, e: nat :: StartsAt(t, q, ArabicWord) && SpaceThenRun(t, b, s, e, IsArabicNumeral) ==> HeadingEnd(t, q) == Some(e)
  {
    AlternativesSolid();
    assert Alternatives[0].word == ArticleWord && Alternatives[1].word == ArabicWord;
    if StartsAt(t, q, ArticleWord) {
      assert t[q..q + |ArticleWord|][0] == t[q];
      assert !StartsAt(t, q, ArabicWord);
      HeadingEndAmongFirst(t, q, Alternatives, 0);
      TailRunExact(t, q + |ArticleWord|, IsDecimal);
    } else if StartsAt(t, q, ArabicWord) {
      HeadingEndAmongFirst(t, q, Alternatives, 1);
      TailRunExact(t, q + |ArabicWord|, IsArabicNumeral);
    } else {
      HeadingEndAmongNone(t, q, Alternatives);
    }
  }

  /** `re.match(r'^(Article\s+\d+|المادة\s+[؀-ۿ0-9]+)', seg)`. */
  predicate IsArticleHeader(seg: string) {
    AlternativesSolid();
    HeadingEndAmong(seg, 0, Alternatives).Some?
  }

  /** The header test holds exactly for the pieces that start with
      `Article`, whitespace and a decimal digit, or with `المادة`,
      whitespace and a character of `[؀-ۿ0-9]`. */
  lemma IsArticleHeaderExact(seg: string)
    ensures var a, b := |ArticleWord|, |ArabicWord|;
      IsArticleHeader(seg) <==>
        || (StartsAt(seg, 0, ArticleWord) && exists s: nat, e: nat :: SpaceThenRun(seg, a, s, e, IsDecimal))
        || (StartsAt(seg, 0, ArabicWord) && exists s: nat, e: nat :: SpaceThenRun(seg, b, s, e, IsArabicNumeral))
  {
    HeadingEndExact(seg, 0);
  }

  /** The pieces group matches produce: the newline (or nothing, at the
      start) and the heading. Neither is ever a body. */
  predicate IsGroupPiece(s: string) {
    s == "" || s == "\n" || (!IsSpace(s[0]) && !IsSpace(s[|s| - 1]) && IsArticleHeader(s))
  }

  lemma HeadingSlice(t: string, q: nat)
    requires q <= |t| && HeadingEnd(t, q).Some?
    ensures IsArticleHeader(t[q..HeadingEnd(t, q).value])
  {
    AlternativesSolid();
    HeadingAmongSlice(t, q, HeadingEnd(t, q).value, Alternatives);
  }

  /** A heading found at `q` and ending at `e` is found again at the start
      of the slice `t[q..e]`. */
  lemma {:induction false} HeadingAmongSlice(t: string, q: nat, e: nat, alts: seq<Alternative>)
    requires q <= e <= |t| && SolidAlternatives(alts)
    requires HeadingEndAmong(t, q, alts) == Some(e)
    ensures HeadingEndAmong(t[q..e], 0, alts) == Some(e - q)
    decreases |alts|
  {
    var w := alts[0].word;
    if StartsAt(t, q, w) {
      assert t[q..e][0..|w|] == t[q..q + |w|];
      TailRunSlice(t, q, e, |w|, alts[0].numeral);
    } else {
      StartsAtSlice(t, q, e, w);
      HeadingAmongSlice(t, q, e, alts[1..]);
    }
  }

  /** The run found in `t` after `q + w` is found again in the slice
      `t[q..e]` that it ends. */
  lemma TailRunSlice(t: string, q: nat, e: nat, w: nat, cls: char -> bool)
    requires q + w <= e <= |t|
    requires forall c :: cls(c) ==> !IsSpace(c)
    requires TailRun(t, q + w, cls) == Some(e)
    ensures TailRun(t[q..e], w, cls) == Some(e - q)
  {
    var h := t[q..e];
    var s := RunEnd(t, q + w, IsSpace);
    RunEndSlice(t, q, e, q + w, IsSpace);
    RunEndSlice(t, q, e, s, cls);
  }

  /** A run that ends inside `t[q..e]`, or at `e`, ends at the same place
      in the slice. */
  lemma {:induction false} RunEndSlice(t: string, q: nat, e: nat, k: nat, cls: char -> bool)
    requires q <= k <= e <= |t|
    requires RunEnd(t, k, cls) <= e
    ensures RunEnd(t[q..e], k - q, cls) == RunEnd(t, k, cls) - q
    decreases e - k
  {
    if k < e && cls(t[k]) {
      RunEndSlice(t, q, e, k + 1, cls);
    }
  }

  /** The marker pattern `(^|\n)(...)` at search position `p`; its two
      groups are the newline (or nothing at the very start) and the heading. */
  function ArticleMatch(t: string, p: nat): (r: Option<Regex.Match>)
    ensures r.Some? ==> p < r.value.end <= |t|
    ensures r.Some? ==> |r.value.groups| == 2 && IsGroupPiece(r.value.groups[0]) && IsGroupPiece(r.value.groups[1])
  {
    if p >= |t| then None
    else if p == 0 && HeadingEnd(t, 0).Some? then HeadingMatch(t, 0, "")
    else if t[p] == '\n' then HeadingMatch(t, p + 1, "\n")
    else None
  }

  function HeadingMatch(t: string, q: nat, lead: string): (r: Option<Regex.Match>)
    requires q <= |t| && IsGroupPiece(lead)
    ensures r.Some? <==> HeadingEnd(t, q).Some?
    ensures r.Some? ==> q < r.value.end <= |t| && r.value.end == HeadingEnd(t, q).value
    ensures r.Some? ==> r.value.groups == [lead, t[q..r.value.end]] && IsGroupPiece(r.value.groups[1])
  {
    match HeadingEnd(t, q)
    case None => None
    case Some(e) =>
      HeadingSlice(t, q);
      Some(Regex.Match(e, [lead, t[q..e]]))
  }

  /** `(^|\n)(...)` at `p`: `^` is tried first and holds only at the very
      start of the text, where the first group is empty; otherwise a newline
      at `p`, which is the first group, must be followed by a heading, which
      is the second. */
  lemma ArticleMatchExact(t: string, p: nat)
    ensures ArticleMatch(t, p).Some? <==>
              || (p == 0 && HeadingEnd(t, 0).Some?)
              || (p < |t| && t[p] == '\n' && HeadingEnd(t, p + 1).Some?)
    ensures p == 0 && HeadingEnd(t, 0).Some? ==>
              ArticleMatch(t, p) == Some(Regex.Match(HeadingEnd(t, 0).value, ["", t[..HeadingEnd(t, 0).value]]))
    ensures p < |t| && t[p] == '\n' && HeadingEnd(t, p + 1).Some? ==>
              ArticleMatch(t, p) == Some(Regex.Match(HeadingEnd(t, p + 1).value, ["\n", t[p + 1..HeadingEnd(t, p + 1).value]]))
  {
    if p == 0 && HeadingEnd(t, 0).Some? {
      assert t[0..HeadingEnd(t, 0).value] == t[..HeadingEnd(t, 0).value];
    }
  }

  lemma ArticleMatchAdvances()
    ensures Regex.Advances(ArticleMatch)
  {
    forall t: string, p: nat | ArticleMatch(t, p).Some?
      ensures p < ArticleMatch(t, p).value.end <= |t|
    {}
  }

  /** `re.split(pattern, full_text)`. */
  function ArticlePieces(text: string): seq<string> {
    ArticleMatchAdvances();
    Regex.Split(text, ArticleMatch)
  }

  const Preamble: string := "Preamble/Introduction"

  function ArticleDoc(source: string, s: Section): Document {
    Document(s.title + "\n" + s.body, Meta(source, s.title))
  }

  function ArticleDocs(source: string, secs: seq<Section>): seq<Document>
    decreases |secs|
  {
    if |secs| == 0 then []
    else ArticleDocs(source, secs[..|secs| - 1]) + [ArticleDoc(source, secs[|secs| - 1])]
  }

  /** What `split_text_by_articles(full_text, source_name)` returns. */
  function ByArticles(text: string, source: string): seq<Document> {
    var segs := ArticlePieces(text);
    ArticleDocs(source, SectionsUpTo(segs, |segs|, IsArticleHeader, Preamble))
  }

  lemma ArticleDocsAppend(source: string, secs: seq<Section>, s: Section)
    ensures ArticleDocs(source, secs + [s]) == ArticleDocs(source, secs) + [ArticleDoc(source, s)]
  {
    assert (secs + [s])[..|secs|] == secs;
  }

  /** `split_text_by_articles`: walk the pieces, a heading becoming the
      current title and a body longer than 20 characters becoming a document
      under it. There is no fallback. */
  method SplitTextByArticles(fullText: string, sourceName: string) returns (docs: seq<Document>)
    ensures docs == ByArticles(fullText, sourceName)
  {
    var segments := ArticlePieces(fullText);
    docs := WalkArticles(segments, sourceName);
  }

  /** The loop over the pieces: the title starts as `Preamble/Introduction`,
      a heading replaces it, and a longer body piece becomes a document
      under it. */
  method WalkArticles(segments: seq<string>, sourceName: string) returns (docs: seq<Document>)
    ensures docs == ArticleDocs(sourceName, SectionsUpTo(segments, |segments|, IsArticleHeader, Preamble))
  {
    docs := [];
    var currentTitle := Preamble;
    var subject := Stem(sourceName);
    var i := 0;
    while i < |segments|
      invariant 0 <= i <= |segments|
      invariant currentTitle == TitleAt(segments, i, IsArticleHeader, Preamble)
      invariant docs == ArticleDocs(sourceName, SectionsUpTo(segments, i, IsArticleHeader, Preamble))
    {
      var segment := Strip(segments[i]);
      if segment != "" {
        if IsArticleHeader(segment) {
          HeaderStep(segments, i, IsArticleHeader, Preamble);
          currentTitle := segment;
        } else if |segment| > 20 {
          BodyStep(segments, i, IsArticleHeader, Preamble);
          ArticleDocsAppend(sourceName, SectionsUpTo(segments, i, IsArticleHeader, Preamble), Section(currentTitle, segment));
          docs := docs + [Document(currentTitle + "\n" + segment,
                                   map["source" := sourceName, "subject" := subject, "article" := currentTitle])];
        } else {
          SkipStep(segments, i, IsArticleHeader, Preamble);
        }
      } else {
        SkipStep(segments, i, IsArticleHeader, Preamble);
      }
      i := i + 1;
    }
  }

  lemma {:induction false} ArticleDocsAt(source: string, secs: seq<Section>)
    ensures |ArticleDocs(source, secs)| == |secs|
    ensures forall k :: 0 <= k < |secs| ==> ArticleDocs(source, secs)[k] == ArticleDoc(source, secs[k])
    decreases |secs|
  {
    if |secs| > 0 {
      ArticleDocsAt(source, secs[..|secs| - 1]);
    }
  }

  /** The documents are exactly the body pieces, in order: piece `i` yields a
      document if and only if, stripped, it is non-empty, is not an article
      heading and is longer than 20 characters; the `k`-th document's article
      is the title in force at its piece and its content is
      `"{title}\n{piece}"`. */
  lemma ByArticlesExact(text: string, source: string)
    ensures var segs, docs := ArticlePieces(text), ByArticles(text, source);
      var idx := BodyIndices(segs, |segs|, IsArticleHeader);
      && |docs| == |idx|
      && (forall k :: 0 <= k < |idx| ==> idx[k] < |segs|)
      && (forall k :: 0 <= k < |idx| ==>
            var title := TitleAt(segs, idx[k], IsArticleHeader, Preamble);
            && docs[k].content == title + "\n" + Strip(segs[idx[k]])
            && docs[k].metadata == Meta(source, title))
      && (forall k, m :: 0 <= k < m < |idx| ==> idx[k] < idx[m])
      && (forall i :: 0 <= i < |segs| ==>
            (i in idx <==> (Strip(segs[i]) != "" && !IsArticleHeader(Strip(segs[i])) && |Strip(segs[i])| > 20)))
  {
    var segs := ArticlePieces(text);
    SectionsExact(segs, IsArticleHeader, Preamble);
    ArticleDocsAt(source, SectionsUpTo(segs, |segs|, IsArticleHeader, Preamble));
  }

  /** Every piece a match produces (its newline and its heading) is never a
      body: the pieces numbered 1 and 2 modulo 3 yield no document. */
  lemma GroupPiecesNeverBodies(text: string)
    ensures forall i :: 0 <= i < |ArticlePieces(text)| && i % 3 != 0 ==>
              !IsBodySeg(ArticlePieces(text)[i], IsArticleHeader)
  {
    ArticleMatchAdvances();
    var segs := ArticlePieces(text);
    Regex.SplitShape(text, ArticleMatch, 2, IsGroupPiece, 0, 0);
    forall i | 0 <= i < |segs| && i % 3 != 0
      ensures !IsBodySeg(segs[i], IsArticleHeader)
    {
      Regex.AlternatesTriples(segs, IsGroupPiece, i);
      var s := segs[i];
      if s == "\n" {
        assert TrimStart(s) == TrimStart(s[1..]);
        assert s[1..] == "";
      } else if s != "" {
        StripFixed(s);
      }
    }
  }

  /** Every title is the preamble title or an article heading; every
      document body is longer than 20 characters and is not a heading. */
  lemma ByArticlesWellFormed(text: string, source: string)
    ensures forall s :: s in SectionsUpTo(ArticlePieces(text), |ArticlePieces(text)|, IsArticleHeader, Preamble) ==>
              (s.title == Preamble || IsArticleHeader(s.title)) && |s.body| > 20 && !IsArticleHeader(s.body)
  {
    SectionsWellFormed(ArticlePieces(text), |ArticlePieces(text)|, IsArticleHeader, Preamble);
  }

  /** Every document carries the source name, its stem as subject, and its
      title as article; the title also opens the content. */
  lemma ByArticlesMetadata(text: string, source: string)
    ensures forall d :: d in ByArticles(text, source) ==>
              && d.metadata.Keys == {"source", "subject", "article"}
              && d.metadata["source"] == source
              && d.metadata["subject"] == Stem(source)
              && d.metadata["article"] + "\n" <= d.content
  {
    var secs := SectionsUpTo(ArticlePieces(text), |ArticlePieces(text)|, IsArticleHeader, Preamble);
    var docs := ByArticles(text, source);
    ArticleDocsAt(source, secs);
    forall d | d in docs
      ensures && d.metadata.Keys == {"source", "subject", "article"}
              && d.metadata["source"] == source
              && d.metadata["subject"] == Stem(source)
              && d.metadata["article"] + "\n" <= d.content
    {
      var k :| 0 <= k < |docs| && docs[k] == d;
      var s := secs[k];
      MetaShape(source, s.title);
      assert d.content == (s.title + "\n") + s.body;
    }
  }
}
