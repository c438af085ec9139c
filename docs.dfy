/** The document record both segmenters emit and the retriever stores, and
    the file-name helper (`os.path.splitext`) that derives a document's
    subject from its source name. */
module Docs {

  /** A LangChain `Document`: text plus a string-valued metadata dictionary. */
  datatype Document = Document(content: string, metadata: map<string, string>)

  /** Position of the last `c` in `s`, or -1 (Python's `str.rfind`). */
  function LastIndexOf(s: string, c: char): (r: int)
    ensures -1 <= r < |s|
    ensures r >= 0 ==> s[r] == c
    ensures forall k :: r < k < |s| ==> s[k] != c
    decreases |s|
  {
    if |s| == 0 then -1
    else if s[|s| - 1] == c then |s| - 1
    else LastIndexOf(s[..|s| - 1], c)
  }

  /** POSIX `os.path.splitext`: the extension is the text from the last dot
      on, provided that dot is in the final path component and is preceded in
      that component by something other than dots. */
  function SplitExt(path: string): (r: (string, string))
    ensures r.0 + r.1 == path
    ensures r.1 == "" || (r.1[0] == '.' && forall k :: 1 <= k < |r.1| ==> r.1[k] != '.' && r.1[k] != '/')
    ensures r.1 != "" ==> exists k :: LastIndexOf(r.0, '/') < k < |r.0| && r.0[k] != '.'
    ensures r.1 == "" ==>
              forall k, j :: LastIndexOf(path, '/') < k < j < |path| && path[k] != '.' ==> path[j] != '.'
  {
    var sepIndex := LastIndexOf(path, '/');
    var dotIndex := LastIndexOf(path, '.');
    if dotIndex > sepIndex && exists k :: sepIndex + 1 <= k < dotIndex && path[k] != '.' then
      var root := path[..dotIndex];
      assert forall k :: 0 <= k < |root| ==> root[k] == path[k];
      assert LastIndexOf(root, '/') == sepIndex by {
        LastIndexPrefix(path, dotIndex, '/');
      }
      (root, path[dotIndex..])
    else
      (path, "")
  }

  lemma {:induction false} LastIndexPrefix(s: string, n: nat, c: char)
    requires n <= |s| && LastIndexOf(s, c) < n
    ensures LastIndexOf(s[..n], c) == LastIndexOf(s, c)
    decreases |s|
  {
    if n < |s| {
      assert s[|s| - 1] != c;
      assert s[..|s| - 1][..n] == s[..n];
      LastIndexPrefix(s[..|s| - 1], n, c);
    } else {
      assert s[..n] == s;
    }
  }

  /** `os.path.basename(path)`: the text after the last `/`. */
  function BaseName(path: string): (r: string)
    ensures '/' !in r
    ensures |r| <= |path| && r == path[|path| - |r|..]
    ensures |r| == |path| || path[|path| - |r| - 1] == '/'
  {
    path[LastIndexOf(path, '/') + 1..]
  }

  /** The metadata both segmenters attach to a document: the source name,
      its subject and the article title. */
  function Meta(source: string, article: string): map<string, string> {
    map["source" := source, "subject" := Stem(source), "article" := article]
  }

  lemma MetaShape(source: string, article: string)
    ensures var m := Meta(source, article);
      && m.Keys == {"source", "subject", "article"}
      && m["source"] == source && m["subject"] == Stem(source) && m["article"] == article
  {}

  /** `str.lower()` on the ASCII letters; every other character is kept. */
  function LowerAscii(s: string): (r: string)
    ensures |r| == |s|
    ensures forall i :: 0 <= i < |s| ==> r[i] == (if 'A' <= s[i] <= 'Z' then (s[i] as int + 32) as char else s[i])
  {
    seq(|s|, i requires 0 <= i < |s| => if 'A' <= s[i] <= 'Z' then (s[i] as int + 32) as char else s[i])
  }

  /** Two characters that are equal up to ASCII case. */
  predicate SameLetterCase(x: char, y: char) {
    x == y
    || ('A' <= x <= 'Z' && y as int == x as int + 32)
    || ('A' <= y <= 'Z' && x as int == y as int + 32)
  }

  /** Two strings that are equal up to ASCII case. */
  predicate EqualIgnoringCase(a: string, b: string) {
    |a| == |b| && forall i :: 0 <= i < |a| ==> SameLetterCase(a[i], b[i])
  }

  /** The lower-cased text holds no capital A-Z, and lower-casing it again
      changes nothing. */
  lemma LowerAsciiLower(s: string)
    ensures forall i :: 0 <= i < |LowerAscii(s)| ==> !('A' <= LowerAscii(s)[i] <= 'Z')
    ensures LowerAscii(LowerAscii(s)) == LowerAscii(s)
  {}

  /** Two names lower-case to the same text exactly when they are equal up
      to ASCII case; so `LowerAscii(e) == ".pdf"` holds exactly for the
      spellings of `.pdf` in any case. */
  lemma {:induction false} LowerAsciiCaseless(a: string, b: string)
    ensures LowerAscii(a) == LowerAscii(b) <==> EqualIgnoringCase(a, b)
  {
    if LowerAscii(a) == LowerAscii(b) {
      forall i | 0 <= i < |a| ensures SameLetterCase(a[i], b[i]) {
        assert LowerAscii(a)[i] == LowerAscii(b)[i];
      }
    }
    if EqualIgnoringCase(a, b) {
      forall i | 0 <= i < |a| ensures LowerAscii(a)[i] == LowerAscii(b)[i] {
        assert SameLetterCase(a[i], b[i]);
      }
    }
  }

  /** The lower-cased extension `load_file` dispatches on. */
  function Extension(path: string): string {
    LowerAscii(SplitExt(path).1)
  }

  /** `load_file` takes a file as `.pdf` (or `.docx`) exactly when its
      extension is that word in any mix of ASCII case. */
  lemma ExtensionCaseless(path: string, w: string)
    requires LowerAscii(w) == w
    ensures Extension(path) == w <==> EqualIgnoringCase(SplitExt(path).1, w)
  {
    LowerAsciiCaseless(SplitExt(path).1, w);
  }

  /** `os.path.splitext(name)[0]`, the subject of a document. */
  function Stem(path: string): string {
    SplitExt(path).0
  }

  /** A name is its own stem exactly when it has no extension; a name
      without a dot always is. */
  lemma StemNoDot(path: string)
    ensures '.' !in path ==> Stem(path) == path
    ensures Stem(path) == path <==> SplitExt(path).1 == ""
  {
    var r := SplitExt(path);
    assert r.1 != "" ==> r.1[0] == path[|r.0|];
  }
}
