/** The walk both article segmenters perform over the pieces of a regex
    split: every piece is stripped; an empty piece is skipped; a header piece
    becomes the current title (and is counted); any other piece longer than
    the minimum body length becomes a section under the current title. The
    header test and the title used before the first header are parameters,
    because the two segmenters differ in both. */
module Segments {
  import opened Text

  /** Bodies must be longer than this many characters (after stripping). */
  const MinBody: nat := 20

  datatype Section = Section(title: string, body: string)

  predicate IsHeaderSeg(seg: string, isHeader: string -> bool) {
    var s := Strip(seg);
    s != "" && isHeader(s)
  }

  predicate IsBodySeg(seg: string, isHeader: string -> bool) {
    var s := Strip(seg);
    s != "" && !isHeader(s) && |s| > MinBody
  }

  /** The title in force just before piece `i`: the stripped form of the
      nearest header piece before `i`, or `intro` when there is none. */
  function TitleAt(segs: seq<string>, i: nat, isHeader: string -> bool, intro: string): string
    requires i <= |segs|
    decreases i
  {
    if i == 0 then intro
    else if IsHeaderSeg(segs[i - 1], isHeader) then Strip(segs[i - 1])
    else TitleAt(segs, i - 1, isHeader, intro)
  }

  /** How many of the first `n` pieces are headers. */
  function HeaderCount(segs: seq<string>, n: nat, isHeader: string -> bool): nat
    requires n <= |segs|
    decreases n
  {
    if n == 0 then 0
    else HeaderCount(segs, n - 1, isHeader) + (if IsHeaderSeg(segs[n - 1], isHeader) then 1 else 0)
  }

  /** The sections the first `n` pieces produce. */
  function SectionsUpTo(segs: seq<string>, n: nat, isHeader: string -> bool, intro: string): seq<Section>
    requires n <= |segs|
    decreases n
  {
    if n == 0 then []
    else
      SectionsUpTo(segs, n - 1, isHeader, intro)
        + (if IsBodySeg(segs[n - 1], isHeader)
           then [Section(TitleAt(segs, n - 1, isHeader, intro), Strip(segs[n - 1]))]
           else [])
  }

  /** The positions, among the first `n`, of the body pieces. */
  function BodyIndices(segs: seq<string>, n: nat, isHeader: string -> bool): seq<nat>
    requires n <= |segs|
    decreases n
  {
    if n == 0 then []
    else BodyIndices(segs, n - 1, isHeader) + (if IsBodySeg(segs[n - 1], isHeader) then [n - 1] else [])
  }

  /** A header piece becomes the title and is counted, and yields no
      section. */
  lemma HeaderStep(segs: seq<string>, i: nat, isHeader: string -> bool, intro: string)
    requires i < |segs| && IsHeaderSeg(segs[i], isHeader)
    ensures TitleAt(segs, i + 1, isHeader, intro) == Strip(segs[i])
    ensures HeaderCount(segs, i + 1, isHeader) == HeaderCount(segs, i, isHeader) + 1
    ensures SectionsUpTo(segs, i + 1, isHeader, intro) == SectionsUpTo(segs, i, isHeader, intro)
  {
    WalkStep(segs, i, isHeader, intro);
    assert !IsBodySeg(segs[i], isHeader);
  }

  /** A body piece leaves the title and the count alone and yields a
      section under the current title. */
  lemma BodyStep(segs: seq<string>, i: nat, isHeader: string -> bool, intro: string)
    requires i < |segs| && IsBodySeg(segs[i], isHeader)
    ensures TitleAt(segs, i + 1, isHeader, intro) == TitleAt(segs, i, isHeader, intro)
    ensures HeaderCount(segs, i + 1, isHeader) == HeaderCount(segs, i, isHeader)
    ensures SectionsUpTo(segs, i + 1, isHeader, intro)
      == SectionsUpTo(segs, i, isHeader, intro) + [Section(TitleAt(segs, i, isHeader, intro), Strip(segs[i]))]
  {
    WalkStep(segs, i, isHeader, intro);
  }

  /** An empty or short piece changes nothing. */
  lemma SkipStep(segs: seq<string>, i: nat, isHeader: string -> bool, intro: string)
    requires i < |segs| && !IsHeaderSeg(segs[i], isHeader) && !IsBodySeg(segs[i], isHeader)
    ensures TitleAt(segs, i + 1, isHeader, intro) == TitleAt(segs, i, isHeader, intro)
    ensures HeaderCount(segs, i + 1, isHeader) == HeaderCount(segs, i, isHeader)
    ensures SectionsUpTo(segs, i + 1, isHeader, intro) == SectionsUpTo(segs, i, isHeader, intro)
  {
    WalkStep(segs, i, isHeader, intro);
  }

  /** One step of the walk: a header piece becomes the title and is
      counted, a body piece yields a section under the current title, and
      any other piece changes nothing. */
  lemma WalkStep(segs: seq<string>, i: nat, isHeader: string -> bool, intro: string)
    requires i < |segs|
    ensures TitleAt(segs, i + 1, isHeader, intro)
      == if IsHeaderSeg(segs[i], isHeader) then Strip(segs[i]) else TitleAt(segs, i, isHeader, intro)
    ensures HeaderCount(segs, i + 1, isHeader)
      == HeaderCount(segs, i, isHeader) + if IsHeaderSeg(segs[i], isHeader) then 1 else 0
    ensures IsBodySeg(segs[i], isHeader) ==>
              SectionsUpTo(segs, i + 1, isHeader, intro)
              == SectionsUpTo(segs, i, isHeader, intro) + [Section(TitleAt(segs, i, isHeader, intro), Strip(segs[i]))]
    ensures !IsBodySeg(segs[i], isHeader) ==>
              SectionsUpTo(segs, i + 1, isHeader, intro) == SectionsUpTo(segs, i, isHeader, intro)
  {}

  /** With no header piece before `i`, the title is `intro`. */
  lemma {:induction false} TitleAtNoHeader(segs: seq<string>, i: nat, isHeader: string -> bool, intro: string)
    requires i <= |segs|
    requires forall j :: 0 <= j < i ==> !IsHeaderSeg(segs[j], isHeader)
    ensures TitleAt(segs, i, isHeader, intro) == intro
    decreases i
  {
    if i > 0 {
      TitleAtNoHeader(segs, i - 1, isHeader, intro);
    }
  }

  /** The title before piece `i` is the stripped form of the header piece
      `j` when no other header piece lies between `j` and `i`. */
  lemma {:induction false} TitleAtHeader(segs: seq<string>, i: nat, j: nat, isHeader: string -> bool, intro: string)
    requires j < i <= |segs| && IsHeaderSeg(segs[j], isHeader)
    requires forall k :: j < k < i ==> !IsHeaderSeg(segs[k], isHeader)
    ensures TitleAt(segs, i, isHeader, intro) == Strip(segs[j])
    decreases i
  {
    if j < i - 1 {
      TitleAtHeader(segs, i - 1, j, isHeader, intro);
    }
  }

  /** The title before piece `i` is the most recent header piece, or `intro`
      when no header piece comes before `i`. */
  lemma TitleAtLatestHeader(segs: seq<string>, i: nat, isHeader: string -> bool, intro: string)
    requires i <= |segs|
    ensures (forall j :: 0 <= j < i ==> !IsHeaderSeg(segs[j], isHeader)) ==>
              TitleAt(segs, i, isHeader, intro) == intro
    ensures forall j :: (0 <= j < i && IsHeaderSeg(segs[j], isHeader)
                         && forall k :: j < k < i ==> !IsHeaderSeg(segs[k], isHeader)) ==>
              TitleAt(segs, i, isHeader, intro) == Strip(segs[j])
  {
    if forall j :: 0 <= j < i ==> !IsHeaderSeg(segs[j], isHeader) {
      TitleAtNoHeader(segs, i, isHeader, intro);
    }
    forall j | 0 <= j < i && IsHeaderSeg(segs[j], isHeader)
                && forall k :: j < k < i ==> !IsHeaderSeg(segs[k], isHeader)
      ensures TitleAt(segs, i, isHeader, intro) == Strip(segs[j])
    {
      TitleAtHeader(segs, i, j, isHeader, intro);
    }
  }

  /** A title is either `intro` or a non-empty header. */
  lemma {:induction false} TitleIsHeaderOrIntro(segs: seq<string>, i: nat, isHeader: string -> bool, intro: string)
    requires i <= |segs|
    ensures var t := TitleAt(segs, i, isHeader, intro);
      t == intro || (t != "" && isHeader(t))
    decreases i
  {
    if i > 0 {
      TitleIsHeaderOrIntro(segs, i - 1, isHeader, intro);
    }
  }

  /** No header has been counted exactly when no header piece has been seen. */
  lemma {:induction false} HeaderCountZero(segs: seq<string>, n: nat, isHeader: string -> bool)
    requires n <= |segs|
    ensures HeaderCount(segs, n, isHeader) == 0 <==> forall j :: 0 <= j < n ==> !IsHeaderSeg(segs[j], isHeader)
    decreases n
  {
    if n > 0 {
      HeaderCountZero(segs, n - 1, isHeader);
    }
  }

  lemma {:induction false} BodyIndicesLength(segs: seq<string>, n: nat, isHeader: string -> bool, intro: string)
    requires n <= |segs|
    ensures |BodyIndices(segs, n, isHeader)| == |SectionsUpTo(segs, n, isHeader, intro)|
    ensures forall k :: 0 <= k < |BodyIndices(segs, n, isHeader)| ==> BodyIndices(segs, n, isHeader)[k] < n
    decreases n
  {
    BodyIndicesBelow(segs, n, isHeader);
    if n > 0 {
      BodyIndicesLength(segs, n - 1, isHeader, intro);
    }
  }

  /** Every body position among the first `n` pieces is below `n`. */
  lemma {:induction false} BodyIndicesBelow(segs: seq<string>, n: nat, isHeader: string -> bool)
    requires n <= |segs|
    ensures forall k :: 0 <= k < |BodyIndices(segs, n, isHeader)| ==> BodyIndices(segs, n, isHeader)[k] < n
    decreases n
  {
    if n > 0 {
      BodyIndicesBelow(segs, n - 1, isHeader);
    }
  }

  lemma {:induction false} SectionsAligned(segs: seq<string>, n: nat, isHeader: string -> bool, intro: string)
    requires n <= |segs|
    ensures var idx, secs := BodyIndices(segs, n, isHeader), SectionsUpTo(segs, n, isHeader, intro);
      |idx| == |secs| && forall k :: 0 <= k < |idx| ==>
        idx[k] < n && secs[k] == Section(TitleAt(segs, idx[k], isHeader, intro), Strip(segs[idx[k]]))
    decreases n
  {
    BodyIndicesLength(segs, n, isHeader, intro);
    if n > 0 {
      SectionsAligned(segs, n - 1, isHeader, intro);
      BodyIndicesLength(segs, n - 1, isHeader, intro);
    }
  }

  lemma {:induction false} BodyIndicesIncreasing(segs: seq<string>, n: nat, isHeader: string -> bool, intro: string)
    requires n <= |segs|
    ensures var idx := BodyIndices(segs, n, isHeader);
      forall k, m :: 0 <= k < m < |idx| ==> idx[k] < idx[m]
    decreases n
  {
    if n > 0 {
      BodyIndicesIncreasing(segs, n - 1, isHeader, intro);
      BodyIndicesLength(segs, n - 1, isHeader, intro);
    }
  }

  lemma {:induction false} BodyIndicesExactly(segs: seq<string>, n: nat, isHeader: string -> bool, intro: string)
    requires n <= |segs|
    ensures var idx := BodyIndices(segs, n, isHeader);
      forall i :: 0 <= i < n ==> (i in idx <==> IsBodySeg(segs[i], isHeader))
    decreases n
  {
    if n > 0 {
      var prev := BodyIndices(segs, n - 1, isHeader);
      var last := if IsBodySeg(segs[n - 1], isHeader) then [n - 1] else [];
      assert BodyIndices(segs, n, isHeader) == prev + last;
      BodyIndicesExactly(segs, n - 1, isHeader, intro);
      BodyIndicesBelow(segs, n - 1, isHeader);
      forall i | 0 <= i < n
        ensures i in prev + last <==> IsBodySeg(segs[i], isHeader)
      {
        assert i in prev + last <==> i in prev || i in last;
        if i == n - 1 {
          assert i !in prev;
        }
      }
    }
  }

  /** The sections are exactly the body pieces, in order, each under the
      title in force where it stands: piece `i` yields a section if and only
      if it is a body piece (so no header piece and no piece of at most
      `MinBody` characters ever does), and the `k`-th section carries the
      `k`-th body piece, stripped, under `TitleAt` of its position. */
  lemma SectionsExact(segs: seq<string>, isHeader: string -> bool, intro: string)
    ensures |BodyIndices(segs, |segs|, isHeader)| == |SectionsUpTo(segs, |segs|, isHeader, intro)|
    ensures forall k :: 0 <= k < |BodyIndices(segs, |segs|, isHeader)| ==>
              var i := BodyIndices(segs, |segs|, isHeader)[k];
              i < |segs|
              && SectionsUpTo(segs, |segs|, isHeader, intro)[k]
                   == Section(TitleAt(segs, i, isHeader, intro), Strip(segs[i]))
    ensures forall k, m :: 0 <= k < m < |BodyIndices(segs, |segs|, isHeader)| ==>
              BodyIndices(segs, |segs|, isHeader)[k] < BodyIndices(segs, |segs|, isHeader)[m]
    ensures forall i :: 0 <= i < |segs| ==>
              (i in BodyIndices(segs, |segs|, isHeader) <==> IsBodySeg(segs[i], isHeader))
  {
    SectionsAligned(segs, |segs|, isHeader, intro);
    BodyIndicesIncreasing(segs, |segs|, isHeader, intro);
    BodyIndicesExactly(segs, |segs|, isHeader, intro);
  }

  /** Every section body is a stripped, non-header text longer than
      `MinBody`, and every section title is `intro` or a header. */
  lemma {:induction false} SectionsWellFormed(segs: seq<string>, n: nat, isHeader: string -> bool, intro: string)
    requires n <= |segs|
    ensures forall s :: s in SectionsUpTo(segs, n, isHeader, intro) ==>
              && |s.body| > MinBody && !isHeader(s.body) && Strip(s.body) == s.body
              && (s.title == intro || (s.title != "" && isHeader(s.title)))
    decreases n
  {
    if n > 0 {
      SectionsWellFormed(segs, n - 1, isHeader, intro);
      TitleIsHeaderOrIntro(segs, n - 1, isHeader, intro);
      StripIdempotent(segs[n - 1]);
    }
  }
}
