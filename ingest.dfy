/** The live ingestion path: the text normalizer `clean_text`, the article
    segmenter `smart_split` with its size-based fallback, and the part of
    `load_file` that chains them. */
module Ingest {
  import opened Wrappers
  import opened Text
  import Lines
  import Regex
  import opened Segments
  import opened Docs

  // ---------------------------------------------------------------- clean_text

  const Nbsp: char := '\U{00A0}'

  /** `text.replace('\xa0', ' ')`. */
  function ReplaceNbsp(s: string): (r: string)
    ensures |r| == |s| && Nbsp !in r
    ensures forall i :: 0 <= i < |s| ==> r[i] == (if s[i] == Nbsp then ' ' else s[i])
  {
    seq(|s|, i requires 0 <= i < |s| => if s[i] == Nbsp then ' ' else s[i])
  }

  lemma ReplaceNbspFixed(s: string)
    requires Nbsp !in s
    ensures ReplaceNbsp(s) == s
  {}

  /** A bare page number: a stripped line of fewer than four digits. */
  predicate IsPageNumber(line: string) {
    IsDigits(line) && |line| < 4
  }

  /** What `clean_text` returns. */
  function Cleaned(text: string): string {
    Lines.Normalize(ReplaceNbsp(text), IsPageNumber)
  }

  /** `clean_text`: non-breaking spaces become spaces; every line is
      stripped; empty lines and bare page numbers are dropped. */
  method CleanText(text: string) returns (cleaned: string)
    ensures cleaned == Cleaned(text)
  {
    var t := ReplaceNbsp(text);
    var lines := Split(t, '\n');
    var kept: seq<string> := [];
    var i := 0;
    while i < |lines|
      invariant 0 <= i <= |lines|
      invariant kept == Lines.Keep(lines[..i], IsPageNumber)
    {
      var line := Strip(lines[i]);
      assert lines[..i + 1][..i] == lines[..i];
      if line != "" && !(IsDigits(line) && |line| < 4) {
        kept := kept + [line];
      }
      i := i + 1;
    }
    assert lines[..|lines|] == lines;
    cleaned := Join(kept, '\n');
  }

  /** The cleaned text holds no non-breaking space and no empty line, and
      each of its lines is its own strip and is not a bare page number. */
  lemma CleanedShape(text: string)
    ensures Nbsp !in Cleaned(text)
    ensures var r := Cleaned(text);
      r == "" || forall l :: l in Split(r, '\n') ==> l != "" && Strip(l) == l && !IsPageNumber(l)
  {
    Lines.NormalizeShape(ReplaceNbsp(text), IsPageNumber);
  }

  /** Line `i` of the input survives exactly when it is not empty after
      stripping and is not, after stripping, a run of fewer than four digits
      (so runs of four or more digits survive); the survivors appear
      stripped and in their original order. */
  lemma CleanedKeepsExactly(text: string)
    ensures var lines := Split(ReplaceNbsp(text), '\n');
      var idx := Lines.KeptIndices(lines, IsPageNumber);
      var out := Lines.Keep(lines, IsPageNumber);
      && Cleaned(text) == Join(out, '\n')
      && |idx| == |out|
      && (forall k :: 0 <= k < |idx| ==> idx[k] < |lines| && out[k] == Strip(lines[idx[k]]))
      && (forall k, m :: 0 <= k < m < |idx| ==> idx[k] < idx[m])
      && (forall i :: 0 <= i < |lines| ==>
            (i in idx <==> !(Strip(lines[i]) == "" || (IsDigits(Strip(lines[i])) && |Strip(lines[i])| < 4))))
  {
    Lines.KeepExact(Split(ReplaceNbsp(text), '\n'), IsPageNumber);
  }

  /** Cleaning cleaned text changes nothing. */
  lemma CleanedIdempotent(text: string)
    ensures Cleaned(Cleaned(text)) == Cleaned(text)
  {
    CleanedShape(text);
    ReplaceNbspFixed(Cleaned(text));
    Lines.NormalizeIdempotent(ReplaceNbsp(text), IsPageNumber);
  }

  // ---------------------------------------------------------- article markers

  /** The introducer tokens: `Article`, the Arabic word for it, and the same
      word with its middle letters in presentation forms. */
  const ArticleWord: string := "Article"
  const ArabicWord: string := "\U{0627}\U{0644}\U{0645}\U{0627}\U{062F}\U{0629}"
  const PresentationWord: string := "\U{0627}\U{FEDF}\U{FEE4}\U{FE8E}\U{062F}\U{0629}"

  /** The alternatives of the token group, in the order the regex tries them. */
  const Keywords: seq<string> := [ArticleWord, ArabicWord, PresentationWord]

  /** Where the first of `words` that occurs at `q` ends. */
  function KeywordEndAmong(t: string, q: nat, words: seq<string>): (r: Option<nat>)
    requires forall k :: 0 <= k < |words| ==> words[k] != "" && !IsSpace(words[k][0])
    ensures r.Some? ==> q < r.value <= |t| && !IsSpace(t[q]) && StartsAt(t, q, t[q..r.value])
    ensures r.Some? ==> exists k :: 0 <= k < |words| && StartsAt(t, q, words[k]) && r.value == q + |words[k]|
    decreases |words|
  {
    if |words| == 0 then None
    else if StartsAt(t, q, words[0]) then
      assert t[q] == words[0][0];
      Some(q + |words[0]|)
    else
      KeywordEndAmong(t, q, words[1..])
  }

  /** Where an introducer token that starts at `q` ends. */
  function KeywordEnd(t: string, q: nat): (r: Option<nat>)
    ensures r.Some? ==> q < r.value <= |t| && !IsSpace(t[q])
    ensures r.Some? ==> exists k :: 0 <= k < |Keywords| && StartsAt(t, q, Keywords[k]) && r.value == q + |Keywords[k]|
  {
    KeywordEndAmong(t, q, Keywords)
  }

  /** `re.match(r'^(Article|المادة|اﻟﻤﺎدة)', seg)`: the piece starts with an
      introducer token. */
  predicate IsHeader(seg: string) {
    KeywordEnd(seg, 0).Some?
  }

  /** A token found at `q` is found at the start of any slice that begins at
      `q` and covers it. */
  lemma {:induction false} KeywordAmongSlice(t: string, q: nat, e: nat, words: seq<string>)
    requires forall k :: 0 <= k < |words| ==> words[k] != "" && !IsSpace(words[k][0])
    requires KeywordEndAmong(t, q, words).Some? && KeywordEndAmong(t, q, words).value <= e <= |t|
    ensures KeywordEndAmong(t[q..e], 0, words).Some?
    decreases |words|
  {
    var h := t[q..e];
    if StartsAt(t, q, words[0]) {
      assert h[0..|words[0]|] == t[q..q + |words[0]|];
    } else {
      StartsAtSlice(t, q, e, words[0]);
      KeywordAmongSlice(t, q, e, words[1..]);
    }
  }

  lemma KeywordSlice(t: string, q: nat, e: nat)
    requires KeywordEnd(t, q).Some? && KeywordEnd(t, q).value <= e <= |t|
    ensures IsHeader(t[q..e])
  {
    KeywordAmongSlice(t, q, e, Keywords);
  }

  /** There is a match exactly when one of `words` occurs at `q`, and the
      first of them that occurs there decides where the match ends. */
  lemma {:induction false} KeywordEndAmongFirst(t: string, q: nat, words: seq<string>)
    requires forall k :: 0 <= k < |words| ==> words[k] != "" && !IsSpace(words[k][0])
    ensures KeywordEndAmong(t, q, words).None? <==> forall k :: 0 <= k < |words| ==> !StartsAt(t, q, words[k])
    ensures forall k :: 0 <= k < |words| && StartsAt(t, q, words[k]) && (forall j :: 0 <= j < k ==> !StartsAt(t, q, words[j])) ==>
              KeywordEndAmong(t, q, words) == Some(q + |words[k]|)
    decreases |words|
  {
    if |words| > 0 && !StartsAt(t, q, words[0]) {
      var rest := words[1..];
      KeywordEndAmongFirst(t, q, rest);
      assert forall k :: 0 < k < |words| ==> words[k] == rest[k - 1];
    }
  }

  /** No two introducer tokens occur at the same position: `Article` differs
      from the Arabic spellings in its first letter, and the two Arabic
      spellings differ in their second. */
  lemma KeywordsExclusive(t: string, q: nat, j: nat, k: nat)
    requires j < |Keywords| && k < |Keywords| && j != k
    requires StartsAt(t, q, Keywords[j])
    ensures !StartsAt(t, q, Keywords[k])
  {
    var i := if j == 0 || k == 0 then 0 else 1;
    assert t[q..q + |Keywords[j]|][i] == t[q + i];
    assert Keywords[j][i] != Keywords[k][i];
  }

  /** Whichever introducer token occurs at `q`, the match ends right after
      it; when none occurs there is no match. */
  lemma KeywordEndExact(t: string, q: nat)
    ensures KeywordEnd(t, q).None? <==> forall k :: 0 <= k < |Keywords| ==> !StartsAt(t, q, Keywords[k])
    ensures forall k :: 0 <= k < |Keywords| && StartsAt(t, q, Keywords[k]) ==> KeywordEnd(t, q) == Some(q + |Keywords[k]|)
  {
    KeywordEndAmongFirst(t, q, Keywords);
    forall k, j | 0 <= j < k < |Keywords| && StartsAt(t, q, Keywords[k])
      ensures !StartsAt(t, q, Keywords[j])
    {
      KeywordsExclusive(t, q, k, j);
    }
  }

  /** The header test of `smart_split` holds exactly for the pieces that
      start with `Article`, `المادة` or `اﻟﻤﺎدة`. */
  lemma IsHeaderExact(seg: string)
    ensures IsHeader(seg) <==>
              StartsAt(seg, 0, ArticleWord) || StartsAt(seg, 0, ArabicWord) || StartsAt(seg, 0, PresentationWord)
  {
    KeywordEndExact(seg, 0);
    assert Keywords[0] == ArticleWord && Keywords[1] == ArabicWord && Keywords[2] == PresentationWord;
  }

  /** `(?:\s+\w+){0,n}`, greedy, from `q`. */
  function MoreWordsEnd(t: string, q: nat, n: nat): (r: nat)
    requires q <= |t|
    ensures q <= r <= |t|
    ensures r == q || IsWordChar(t[r - 1])
    decreases n
  {
    if n == 0 then q
    else
      var s := RunEnd(t, q, IsSpace);
      if s == q then q
      else
        var w := RunEnd(t, s, IsWordChar);
        if w == s then q
        else
          assert IsWordChar(t[w - 1]);
          MoreWordsEnd(t, w, n - 1)
  }

  /** One `\s+\w+` group, taken in full, leads from `a` to `e`. */
  ghost predicate WordGroup(t: string, a: nat, e: nat) {
    exists s: nat :: SpaceThenRun(t, a, s, e, IsWordChar)
  }

  /** `m` consecutive whole groups lead from `a` to `b`. */
  ghost predicate WordGroups(t: string, a: nat, b: nat, m: nat)
    decreases m
  {
    if m == 0 then a == b else exists e: nat :: WordGroup(t, a, e) && WordGroups(t, e, b, m - 1)
  }

  /** A group starts at `a` exactly when whitespace is there and a word
      character follows all of it. */
  lemma GroupAtExact(t: string, a: nat)
    requires a <= |t|
    ensures var s := RunEnd(t, a, IsSpace);
      (exists e: nat :: WordGroup(t, a, e)) <==> s > a && RunEnd(t, s, IsWordChar) > s
  {
    var s := RunEnd(t, a, IsSpace);
    if s > a && RunEnd(t, s, IsWordChar) > s {
      assert SpaceThenRun(t, a, s, RunEnd(t, s, IsWordChar), IsWordChar);
      assert WordGroup(t, a, RunEnd(t, s, IsWordChar));
    }
    forall e: nat | WordGroup(t, a, e)
      ensures s > a && RunEnd(t, s, IsWordChar) > s
    {
      var s': nat :| SpaceThenRun(t, a, s', e, IsWordChar);
      WordCharsNotSpace();
      SpaceThenRunUnique(t, a, s', e, IsWordChar);
    }
  }

  lemma WordCharsNotSpace()
    ensures forall c :: IsWordChar(c) ==> !IsSpace(c)
  {
    forall c ensures IsWordChar(c) ==> !IsSpace(c) {
      WordCharNotSpace(c);
    }
  }

  /** `(?:\s+\w+){0,n}` from `q` is greedy: its end is reached by `m <= n`
      whole groups, and when fewer than `n` were taken no further group
      starts there. */
  lemma {:induction false} MoreWordsGreedy(t: string, q: nat, n: nat)
    requires q <= |t|
    ensures exists m: nat :: m <= n && WordGroups(t, q, MoreWordsEnd(t, q, n), m)
              && (m < n ==> forall e: nat :: !WordGroup(t, MoreWordsEnd(t, q, n), e))
    decreases n
  {
    var r := MoreWordsEnd(t, q, n);
    var s := RunEnd(t, q, IsSpace);
    if n == 0 {
      assert r == q && WordGroups(t, q, r, 0);
    } else if s == q || RunEnd(t, s, IsWordChar) == s {
      GroupAtExact(t, q);
      assert WordGroups(t, q, r, 0);
    } else {
      var w := RunEnd(t, s, IsWordChar);
      assert SpaceThenRun(t, q, s, w, IsWordChar);
      assert WordGroup(t, q, w);
      MoreWordsGreedy(t, w, n - 1);
      var m: nat :| m <= n - 1 && WordGroups(t, w, r, m) && (m < n - 1 ==> forall e: nat :: !WordGroup(t, r, e));
      assert WordGroups(t, q, r, m + 1);
    }
  }

  /** The end of the capture group
      `(?:Article|المادة|اﻟﻤﺎدة)\s+(?:\d+|\w+(?:\s+\w+){0,4})` matched at `q`.
      Nothing follows the greedy parts in the pattern, so the first way
      they can match (as much as possible) is the match. */
  function HeaderEnd(t: string, q: nat): (r: Option<nat>)
    requires q <= |t|
    ensures r.Some? ==> KeywordEnd(t, q).Some? && KeywordEnd(t, q).value < r.value <= |t|
    ensures r.Some? ==> EndsSolid(t, r.value)
  {
    match KeywordEnd(t, q)
    case None => None
    case Some(k) => NumberEnd(t, k)
  }

  /** `\s+(?:\d+|\w+(?:\s+\w+){0,4})` from `k`, the part of a heading after
      its introducer token. */
  function NumberEnd(t: string, k: nat): (r: Option<nat>)
    requires k <= |t|
    ensures r.Some? ==> k < r.value <= |t| && EndsSolid(t, r.value)
  {
    var s := RunEnd(t, k, IsSpace);
    if s == k then None
    else
      var d := RunEnd(t, s, IsDecimal);
      if d > s then
        assert IsDecimal(t[d - 1]);
        DecimalNotSpace(t[d - 1]);
        assert EndsSolid(t, d);
        Some(d)
      else
        var w := RunEnd(t, s, IsWordChar);
        if w == s then None
        else
          var e := MoreWordsEnd(t, w, 4);
          assert IsWordChar(t[e - 1]);
          WordCharNotSpace(t[e - 1]);
          assert EndsSolid(t, e);
          Some(e)
  }

  /** `\s+(?:\d+|\w+(?:\s+\w+){0,4})` from `k` matches exactly when a
      `\s+\w+` group starts at `k` (every digit is a word character). When
      the characters after the whitespace begin with a digit, `\d+` is
      tried first and its whole run is the match; otherwise the match is
      the whole word there followed by the greedy `(?:\s+\w+){0,4}`. */
  lemma NumberEndExact(t: string, k: nat)
    requires k <= |t|
    ensures NumberEnd(t, k).Some? <==> exists e: nat :: WordGroup(t, k, e)
    ensures forall s: nat, e: nat :: SpaceThenRun(t, k, s, e, IsDecimal) ==> NumberEnd(t, k) == Some(e)
    ensures forall s: nat, e: nat :: SpaceThenRun(t, k, s, e, IsWordChar) && !IsDecimal(t[s]) ==>
              NumberEnd(t, k) == Some(MoreWordsEnd(t, e, 4))
  {
    var s := RunEnd(t, k, IsSpace);
    GroupAtExact(t, k);
    if s > k && s < |t| {
      DecimalIsWordChar(t[s]);
    }
    forall s': nat, e: nat | SpaceThenRun(t, k, s', e, IsDecimal)
      ensures NumberEnd(t, k) == Some(e)
    {
      assert forall c :: IsDecimal(c) ==> !IsSpace(c);
      SpaceThenRunUnique(t, k, s', e, IsDecimal);
    }
    forall s': nat, e: nat | SpaceThenRun(t, k, s', e, IsWordChar) && !IsDecimal(t[s'])
      ensures NumberEnd(t, k) == Some(MoreWordsEnd(t, e, 4))
    {
      WordCharsNotSpace();
      SpaceThenRunUnique(t, k, s', e, IsWordChar);
    }
  }

  /** A heading at `q` whose introducer token is `Keywords[k]` is matched
      exactly when the tail matches right after that token, and it ends
      where the tail does. */
  lemma HeaderEndAfter(t: string, q: nat, k: nat)
    requires k < |Keywords| && StartsAt(t, q, Keywords[k])
    ensures HeaderEnd(t, q) == NumberEnd(t, q + |Keywords[k]|)
  {
    KeywordEndExact(t, q);
    assert KeywordEnd(t, q) == Some(q + |Keywords[k]|);
  }

  /** Without an introducer token at `q` there is no heading there. */
  lemma HeaderEndNone(t: string, q: nat)
    requires q <= |t|
    requires forall k :: 0 <= k < |Keywords| ==> !StartsAt(t, q, Keywords[k])
    ensures HeaderEnd(t, q).None?
  {
    KeywordEndExact(t, q);
  }

  /** A captured heading: starts with an introducer token and neither starts
      nor ends with whitespace. */
  predicate IsCapturedHeader(h: string) {
    h != "" && !IsSpace(h[0]) && !IsSpace(h[|h| - 1]) && IsHeader(h)
  }

  /** A slice from an introducer token to a non-space character past it is
      a captured heading. */
  lemma CapturedSlice(t: string, q: nat, e: nat)
    requires KeywordEnd(t, q).Some? && KeywordEnd(t, q).value < e <= |t| && EndsSolid(t, e)
    ensures IsCapturedHeader(t[q..e])
  {
    var h := t[q..e];
    KeywordSlice(t, q, e);
    assert h[0] == t[q] && h[|h| - 1] == t[e - 1];
  }

  /** The pattern `(?:^|\n)(...)` tried at search position `p`: either the
      heading at the very start of the text, or a newline followed by a
      heading. The newline is consumed but not captured. */
  function ArticleMarker(t: string, p: nat): (r: Option<Regex.Match>)
    ensures r.Some? ==> p < r.value.end <= |t|
    ensures r.Some? ==> |r.value.groups| == 1 && IsCapturedHeader(r.value.groups[0])
  {
    if p >= |t| then None
    else if p == 0 && HeadingAt(t, 0).Some? then HeadingAt(t, 0)
    else if t[p] == '\n' then HeadingAt(t, p + 1)
    else None
  }

  /** The capture group matched at `q`, as a match ending where it ends. */
  function HeadingAt(t: string, q: nat): (r: Option<Regex.Match>)
    requires q <= |t|
    ensures r.Some? <==> HeaderEnd(t, q).Some?
    ensures r.Some? ==> q < r.value.end <= |t| && r.value.end == HeaderEnd(t, q).value
    ensures r.Some? ==> r.value.groups == [t[q..r.value.end]] && IsCapturedHeader(r.value.groups[0])
  {
    match HeaderEnd(t, q)
    case None => None
    case Some(e) =>
      CapturedSlice(t, q, e);
      Some(Regex.Match(e, [t[q..e]]))
  }

  /** `(?:^|\n)(...)` at `p`: `^` is tried first and holds only at the very
      start of the text; otherwise a newline at `p` must be followed by a
      heading. The newline is consumed, and the one group is the heading. */
  lemma ArticleMarkerExact(t: string, p: nat)
    ensures ArticleMarker(t, p).Some? <==>
              || (p == 0 && HeaderEnd(t, 0).Some?)
              || (p < |t| && t[p] == '\n' && HeaderEnd(t, p + 1).Some?)
    ensures p == 0 && HeaderEnd(t, 0).Some? ==>
              ArticleMarker(t, p) == Some(Regex.Match(HeaderEnd(t, 0).value, [t[..HeaderEnd(t, 0).value]]))
    ensures p < |t| && t[p] == '\n' && HeaderEnd(t, p + 1).Some? ==>
              ArticleMarker(t, p) == Some(Regex.Match(HeaderEnd(t, p + 1).value, [t[p + 1..HeaderEnd(t, p + 1).value]]))
  {
    if p == 0 && HeaderEnd(t, 0).Some? {
      assert t[0..HeaderEnd(t, 0).value] == t[..HeaderEnd(t, 0).value];
    }
  }

  lemma ArticleMarkerAdvances()
    ensures Regex.Advances(ArticleMarker)
  {
    forall t: string, p: nat | ArticleMarker(t, p).Some?
      ensures p < ArticleMarker(t, p).value.end <= |t|
    {}
  }

  /** `re.split(pattern, text)` with the marker pattern. */
  function Pieces(text: string): seq<string> {
    ArticleMarkerAdvances();
    Regex.Split(text, ArticleMarker)
  }

  /** The split alternates text and captured headings: every odd-numbered
      piece is a heading, which counts as a header and never as a body. */
  lemma PiecesAlternate(text: string)
    ensures forall i :: 0 <= i < |Pieces(text)| && i % 2 == 1 ==>
              IsCapturedHeader(Pieces(text)[i])
              && IsHeaderSeg(Pieces(text)[i], IsHeader)
              && !IsBodySeg(Pieces(text)[i], IsHeader)
  {
    ArticleMarkerAdvances();
    var segs := Pieces(text);
    Regex.SplitShape(text, ArticleMarker, 1, IsCapturedHeader, 0, 0);
    forall i | 0 <= i < |segs| && i % 2 == 1
      ensures IsCapturedHeader(segs[i]) && Strip(segs[i]) == segs[i]
    {
      Regex.AlternatesPairs(segs, IsCapturedHeader, i);
      StripFixed(segs[i]);
    }
  }

  // --------------------------------------------------------------- smart_split

  const Intro: string := "Introduction"
  /** The fallback needs more than this many characters of text ... */
  const FallbackLength: nat := 1000
  /** ... and fewer than this many headers. */
  const MinArticles: nat := 2

  function SectionDoc(source: string, s: Section): Document {
    Document("Source: " + source + "\nSection: " + s.title + "\n\n" + s.body, Meta(source, s.title))
  }

  function SectionDocs(source: string, secs: seq<Section>): seq<Document>
    decreases |secs|
  {
    if |secs| == 0 then []
    else SectionDocs(source, secs[..|secs| - 1]) + [SectionDoc(source, secs[|secs| - 1])]
  }

  /** The `i`-th (from zero) fallback chunk as a document. */
  function PartDoc(source: string, i: nat, chunk: string): Document {
    Document("Source: " + source + "\nPart: " + NatToString(i + 1) + "\n\n" + chunk,
             Meta(source, "Page/Part " + NatToString(i + 1)))
  }

  function PartDocs(source: string, chunks: seq<string>): seq<Document>
    decreases |chunks|
  {
    if |chunks| == 0 then []
    else PartDocs(source, chunks[..|chunks| - 1]) + [PartDoc(source, |chunks| - 1, chunks[|chunks| - 1])]
  }

  function FoundArticles(text: string): nat {
    HeaderCount(Pieces(text), |Pieces(text)|, IsHeader)
  }

  predicate FallbackFires(text: string) {
    FoundArticles(text) < MinArticles && |text| > FallbackLength
  }

  /** What `smart_split(text, source)` returns, with `chunk` standing for
      `RecursiveCharacterTextSplitter(chunk_size=1000, chunk_overlap=150)`
      applied to the whole text. */
  function Segmented(text: string, source: string, chunk: string -> seq<string>): seq<Document> {
    if FallbackFires(text) then PartDocs(source, chunk(text))
    else SectionDocs(source, SectionsUpTo(Pieces(text), |Pieces(text)|, IsHeader, Intro))
  }

  /** `smart_split`: walk the pieces carrying the current title and the
      header count, then fall back to size-based chunks when the text is
      long and fewer than two headers were seen. */
  method SmartSplit(text: string, source: string, chunk: string -> seq<string>) returns (docs: seq<Document>)
    ensures docs == Segmented(text, source, chunk)
  {
    var segments := Pieces(text);
    var subject := Stem(source);
    var foundArticles;
    docs, foundArticles := WalkPieces(segments, source, subject);
    if foundArticles < 2 && |text| > 1000 {
      docs := NumberParts(source, subject, chunk(text));
      assert FallbackFires(text);
    } else {
      assert !FallbackFires(text);
    }
  }

  /** The loop over the pieces: the current title starts as `Introduction`,
      a header piece replaces it and is counted, and a longer body piece
      becomes a document under it. */
  method WalkPieces(segments: seq<string>, source: string, subject: string)
    returns (docs: seq<Document>, foundArticles: nat)
    requires subject == Stem(source)
    ensures docs == SectionDocs(source, SectionsUpTo(segments, |segments|, IsHeader, Intro))
    ensures foundArticles == HeaderCount(segments, |segments|, IsHeader)
  {
    docs := [];
    var currentTitle := Intro;
    foundArticles := 0;
    var i := 0;
    while i < |segments|
      invariant 0 <= i <= |segments|
      invariant currentTitle == TitleAt(segments, i, IsHeader, Intro)
      invariant foundArticles == HeaderCount(segments, i, IsHeader)
      invariant docs == SectionDocs(source, SectionsUpTo(segments, i, IsHeader, Intro))
    {
      WalkStep(segments, i, IsHeader, Intro);
      var seg := Strip(segments[i]);
      assert IsHeaderSeg(segments[i], IsHeader) <==> seg != "" && IsHeader(seg);
      assert IsBodySeg(segments[i], IsHeader) <==> seg != "" && !IsHeader(seg) && |seg| > 20;
      if seg != "" {
        if IsHeader(seg) {
          currentTitle := seg;
          foundArticles := foundArticles + 1;
        } else if |seg| > 20 {
          SectionDocsAppend(source, SectionsUpTo(segments, i, IsHeader, Intro), Section(currentTitle, seg));
          docs := docs + [Document("Source: " + source + "\nSection: " + currentTitle + "\n\n" + seg,
                                   map["source" := source, "subject" := subject, "article" := currentTitle])];
        }
      }
      i := i + 1;
    }
  }

  /** The fallback's loop over the chunks: the `j`-th chunk becomes part
      `j + 1`. */
  method NumberParts(source: string, subject: string, rawDocs: seq<string>) returns (docs: seq<Document>)
    requires subject == Stem(source)
    ensures docs == PartDocs(source, rawDocs)
  {
    docs := [];
    for j := 0 to |rawDocs|
      invariant docs == PartDocs(source, rawDocs[..j])
    {
      PartDocsStep(source, rawDocs, j);
      var content := rawDocs[j];
      var metadata := map["source" := source, "subject" := subject, "article" := "Page/Part " + NatToString(j + 1)];
      content := "Source: " + source + "\nPart: " + NatToString(j + 1) + "\n\n" + content;
      docs := docs + [Document(content, metadata)];
    }
    assert rawDocs[..|rawDocs|] == rawDocs;
  }

  lemma PartDocsStep(source: string, chunks: seq<string>, j: nat)
    requires j < |chunks|
    ensures PartDocs(source, chunks[..j + 1]) == PartDocs(source, chunks[..j]) + [PartDoc(source, j, chunks[j])]
  {
    assert chunks[..j + 1][..j] == chunks[..j];
  }

  lemma SectionDocsAppend(source: string, secs: seq<Section>, s: Section)
    ensures SectionDocs(source, secs + [s]) == SectionDocs(source, secs) + [SectionDoc(source, s)]
  {
    assert (secs + [s])[..|secs|] == secs;
  }

  lemma {:induction false} SectionDocsAt(source: string, secs: seq<Section>)
    ensures |SectionDocs(source, secs)| == |secs|
    ensures forall k :: 0 <= k < |secs| ==> SectionDocs(source, secs)[k] == SectionDoc(source, secs[k])
    decreases |secs|
  {
    if |secs| > 0 {
      SectionDocsAt(source, secs[..|secs| - 1]);
    }
  }

  lemma {:induction false} PartDocsAt(source: string, chunks: seq<string>)
    ensures |PartDocs(source, chunks)| == |chunks|
    ensures forall k :: 0 <= k < |chunks| ==> PartDocs(source, chunks)[k] == PartDoc(source, k, chunks[k])
    decreases |chunks|
  {
    if |chunks| > 0 {
      PartDocsAt(source, chunks[..|chunks| - 1]);
    }
  }

  /** Without the fallback the documents are exactly the body pieces, in
      order: piece `i` yields a document if and only if, stripped, it is
      non-empty, does not start with an introducer token and is longer
      than 20 characters; the `k`-th document's article is the title in force
      at its piece and its content is
      `"Source: {source}\nSection: {title}\n\n{piece}"`. */
  lemma StructuralDocsExact(text: string, source: string, chunk: string -> seq<string>)
    requires !FallbackFires(text)
    ensures var segs, docs := Pieces(text), Segmented(text, source, chunk);
      var idx := BodyIndices(segs, |segs|, IsHeader);
      && |docs| == |idx|
      && (forall k :: 0 <= k < |idx| ==> idx[k] < |segs|)
      && (forall k :: 0 <= k < |idx| ==>
            var title := TitleAt(segs, idx[k], IsHeader, Intro);
            && docs[k].content == "Source: " + source + "\nSection: " + title + "\n\n" + Strip(segs[idx[k]])
            && docs[k].metadata == Meta(source, title))
      && (forall k, m :: 0 <= k < m < |idx| ==> idx[k] < idx[m])
      && (forall i :: 0 <= i < |segs| ==>
            (i in idx <==> (Strip(segs[i]) != "" && !IsHeader(Strip(segs[i])) && |Strip(segs[i])| > 20)))
  {
    var segs := Pieces(text);
    SectionsExact(segs, IsHeader, Intro);
    SectionDocsAt(source, SectionsUpTo(segs, |segs|, IsHeader, Intro));
  }

  /** The title in force at a piece is the most recent header piece before
      it, or `"Introduction"` when there is none. */
  lemma TitleIsLatestHeader(text: string, i: nat)
    requires i <= |Pieces(text)|
    ensures var segs := Pieces(text);
      && ((forall j :: 0 <= j < i ==> !IsHeaderSeg(segs[j], IsHeader)) ==> TitleAt(segs, i, IsHeader, Intro) == Intro)
      && (forall j :: (0 <= j < i && IsHeaderSeg(segs[j], IsHeader)
                       && forall k :: j < k < i ==> !IsHeaderSeg(segs[k], IsHeader)) ==>
            TitleAt(segs, i, IsHeader, Intro) == Strip(segs[j]))
  {
    TitleAtLatestHeader(Pieces(text), i, IsHeader, Intro);
  }

  /** With the fallback every structural document is discarded: the `k`-th
      document is the `k`-th chunk, titled `"Page/Part {k+1}"` and prefixed
      `"Source: {source}\nPart: {k+1}\n\n"`. */
  lemma FallbackDocs(text: string, source: string, chunk: string -> seq<string>)
    requires FallbackFires(text)
    ensures var docs, chunks := Segmented(text, source, chunk), chunk(text);
      && |docs| == |chunks|
      && forall k :: 0 <= k < |chunks| ==>
           && docs[k].content == "Source: " + source + "\nPart: " + NatToString(k + 1) + "\n\n" + chunks[k]
           && docs[k].metadata == Meta(source, "Page/Part " + NatToString(k + 1))
  {
    PartDocsAt(source, chunk(text));
  }

  /** Fallback part titles are pairwise distinct. */
  lemma PartTitlesDistinct(source: string, chunks: seq<string>)
    ensures var docs := PartDocs(source, chunks);
      forall k, m :: 0 <= k < m < |docs| ==>
        "article" in docs[k].metadata && "article" in docs[m].metadata
        && docs[k].metadata["article"] != docs[m].metadata["article"]
  {
    var docs := PartDocs(source, chunks);
    PartDocsAt(source, chunks);
    forall k, m | 0 <= k < m < |docs|
      ensures "article" in docs[k].metadata && "article" in docs[m].metadata
              && docs[k].metadata["article"] != docs[m].metadata["article"]
    {
      assert docs[k] == PartDoc(source, k, chunks[k]);
      assert docs[m] == PartDoc(source, m, chunks[m]);
      NatToStringInjective(k + 1, m + 1);
      PrefixCancel("Page/Part ", NatToString(k + 1), NatToString(m + 1));
    }
  }

  lemma PrefixCancel(p: string, a: string, b: string)
    ensures p + a == p + b ==> a == b
  {
    assert (p + a)[|p|..] == a && (p + b)[|p|..] == b;
  }

  /** In both branches every document carries exactly the keys `source`,
      `subject` and `article`, with the source name and its stem. */
  lemma SubjectEverywhere(text: string, source: string, chunk: string -> seq<string>)
    ensures forall d :: d in Segmented(text, source, chunk) ==>
              && d.metadata.Keys == {"source", "subject", "article"}
              && d.metadata["source"] == source
              && d.metadata["subject"] == Stem(source)
  {
    var docs := Segmented(text, source, chunk);
    if FallbackFires(text) {
      var chunks := chunk(text);
      PartDocsAt(source, chunks);
      forall d | d in docs
        ensures d.metadata.Keys == {"source", "subject", "article"}
        ensures d.metadata["source"] == source && d.metadata["subject"] == Stem(source)
      {
        var k :| 0 <= k < |docs| && docs[k] == d;
        MetaShape(source, "Page/Part " + NatToString(k + 1));
      }
    } else {
      var secs := SectionsUpTo(Pieces(text), |Pieces(text)|, IsHeader, Intro);
      SectionDocsAt(source, secs);
      forall d | d in docs
        ensures d.metadata.Keys == {"source", "subject", "article"}
        ensures d.metadata["source"] == source && d.metadata["subject"] == Stem(source)
      {
        var k :| 0 <= k < |docs| && docs[k] == d;
        MetaShape(source, secs[k].title);
      }
    }
  }

  /** Without the fallback every article title is `"Introduction"` or a
      header, and every document body is longer than 20 characters. */
  lemma StructuralTitles(text: string, source: string, chunk: string -> seq<string>)
    requires !FallbackFires(text)
    ensures forall s :: s in SectionsUpTo(Pieces(text), |Pieces(text)|, IsHeader, Intro) ==>
              (s.title == Intro || IsHeader(s.title)) && |s.body| > 20 && !IsHeader(s.body)
  {
    SectionsWellFormed(Pieces(text), |Pieces(text)|, IsHeader, Intro);
  }

  /** Empty text yields no document. */
  lemma SegmentedEmpty(source: string, chunk: string -> seq<string>)
    ensures Segmented("", source, chunk) == []
  {
    ArticleMarkerAdvances();
    var segs := Pieces("");
    assert segs == [""];
    assert Strip("") == "";
    assert !IsBodySeg(segs[0], IsHeader);
    assert SectionsUpTo(segs, 1, IsHeader, Intro) == SectionsUpTo(segs, 0, IsHeader, Intro);
  }

  // ----------------------------------------------------------------- load_file

  /** The PDF text: every page's text followed by a newline. */
  function PdfText(pages: seq<string>): string
    decreases |pages|
  {
    if |pages| == 0 then "" else PdfText(pages[..|pages| - 1]) + pages[|pages| - 1] + "\n"
  }

  /** The page loop writes the pages joined by newlines, plus a final
      newline. */
  lemma {:induction false} PdfTextJoin(pages: seq<string>)
    ensures PdfText(pages) == Join(pages + [""], '\n')
    decreases |pages|
  {
    if |pages| > 0 {
      var n := |pages| - 1;
      PdfTextJoin(pages[..n]);
      JoinLast(pages[..n], pages[n]);
      assert pages[..n] + [pages[n]] == pages;
    }
  }

  lemma {:induction false} JoinLast(ls: seq<string>, x: string)
    ensures Join(ls + [x] + [""], '\n') == Join(ls + [""], '\n') + x + "\n"
    decreases |ls|
  {
    if |ls| == 0 {
      assert [x] + [""] == [x, ""];
      assert Join([x, ""], '\n') == x + "\n" + Join([""], '\n');
    } else {
      JoinLast(ls[1..], x);
      assert (ls + [x] + [""])[1..] == ls[1..] + [x] + [""];
      assert (ls + [""])[1..] == ls[1..] + [""];
    }
  }

  /** The extensions `load_file` reads; any other file gives empty text. */
  predicate Supported(ext: string) {
    ext == ".pdf" || ext == ".docx"
  }

  /** What `load_file(filepath)` returns. `content` is what the reader for
      the file's type produced: the page texts of a PDF or the paragraph
      texts of a DOCX, or `None` when opening or reading the file raised. */
  function Loaded(filepath: string, content: Option<seq<string>>, chunk: string -> seq<string>): seq<Document> {
    var ext := Extension(filepath);
    if Supported(ext) && content.None? then []
    else Segmented(Cleaned(ReadText(ext, content)), BaseName(filepath), chunk)
  }

  /** The text read from a file with extension `ext`: the pages of a PDF
      each followed by a newline, the paragraphs of a DOCX joined by
      newlines, and nothing for any other type. */
  function ReadText(ext: string, content: Option<seq<string>>): string
    requires Supported(ext) ==> content.Some?
  {
    if ext == ".pdf" then PdfText(content.value)
    else if ext == ".docx" then Join(content.value, '\n')
    else ""
  }

  /** `load_file`: read the text by file type, clean it, then segment it under
      the file's base name; a reader failure yields no document. */
  method LoadFile(filepath: string, content: Option<seq<string>>, chunk: string -> seq<string>)
    returns (docs: seq<Document>)
    ensures docs == Loaded(filepath, content, chunk)
  {
    var name := BaseName(filepath);
    var ext := Extension(filepath);
    var fullText := "";
    if ext == ".pdf" {
      if content.None? {
        return [];
      }
      fullText := ReadPdf(content.value);
    } else if ext == ".docx" {
      if content.None? {
        return [];
      }
      fullText := Join(content.value, '\n');
    }
    assert fullText == ReadText(ext, content);
    fullText := CleanText(fullText);
    docs := SmartSplit(fullText, name, chunk);
  }

  /** The page loop of the PDF branch: each page's text followed by a
      newline. */
  method ReadPdf(pages: seq<string>) returns (fullText: string)
    ensures fullText == PdfText(pages)
  {
    fullText := "";
    for k := 0 to |pages|
      invariant fullText == PdfText(pages[..k])
    {
      assert pages[..k + 1][..k] == pages[..k];
      fullText := fullText + pages[k] + "\n";
    }
    assert pages[..|pages|] == pages;
  }

  /** A reader failure, a file type other than PDF and DOCX, and a file with
      no text all yield no document, and every document's source is the
      file's base name, which holds no `/`. */
  lemma LoadedEmpty(filepath: string, content: Option<seq<string>>, chunk: string -> seq<string>)
    ensures Supported(Extension(filepath)) && content.None? ==> Loaded(filepath, content, chunk) == []
    ensures !Supported(Extension(filepath)) ==> Loaded(filepath, content, chunk) == []
    ensures content == Some([]) ==> Loaded(filepath, content, chunk) == []
    ensures forall d :: d in Loaded(filepath, content, chunk) ==>
              "source" in d.metadata && d.metadata["source"] == BaseName(filepath) && '/' !in d.metadata["source"]
  {
    var name := BaseName(filepath);
    CleanedEmpty();
    SegmentedEmpty(name, chunk);
    var ext := Extension(filepath);
    if !(Supported(ext) && content.None?) {
      SubjectEverywhere(Cleaned(ReadText(ext, content)), name, chunk);
    }
  }

  lemma CleanedEmpty()
    ensures Cleaned("") == ""
  {
    assert ReplaceNbsp("") == "";
    assert Split("", '\n') == [""];
    assert Lines.Keep([""], IsPageNumber) == [];
  }
}
