/** Character classes and the handful of Python string operations the
    normalizers and segmenters rely on: `str.strip()`, `str.split(sep)`,
    `sep.join(...)`, `str.isdigit()` and decimal formatting of an int. */
module Text {

  /** Python's `str.isspace()` (and, identically, `\s` in a `str` regex):
      the code points Unicode classes as whitespace. */
  predicate IsSpace(c: char) {
    || c == ' '
    || ('\t' <= c <= '\r')
    || ('\U{001C}' <= c <= '\U{001F}')
    || c == '\U{0085}' || c == '\U{00A0}' || c == '\U{1680}'
    || ('\U{2000}' <= c <= '\U{200A}')
    || c == '\U{2028}' || c == '\U{2029}' || c == '\U{202F}'
    || c == '\U{205F}' || c == '\U{3000}'
  }

  /** Decimal digits (`\d`): ASCII, Arabic-Indic and extended Arabic-Indic. */
  predicate IsDecimal(c: char) {
    || ('0' <= c <= '9')
    || ('\U{0660}' <= c <= '\U{0669}')
    || ('\U{06F0}' <= c <= '\U{06F9}')
  }

  /** `str.isdigit()` on one character: the decimal digits plus the
      superscript digits one, two and three. */
  predicate IsDigitChar(c: char) {
    IsDecimal(c) || c == '\U{00B9}' || c == '\U{00B2}' || c == '\U{00B3}'
  }

  /** Arabic letters (general categories Lo and Lm) in the Arabic block and
      in the two presentation-form blocks; the ornate parentheses, the
      symbols and the unassigned code points of those blocks are left out. */
  predicate IsArabicLetter(c: char) {
    || ('\U{0620}' <= c <= '\U{064A}')
    || ('\U{066E}' <= c <= '\U{066F}')
    || ('\U{0671}' <= c <= '\U{06D3}')
    || c == '\U{06D5}'
    || ('\U{06E5}' <= c <= '\U{06E6}')
    || ('\U{06EE}' <= c <= '\U{06EF}')
    || ('\U{06FA}' <= c <= '\U{06FC}')
    || c == '\U{06FF}'
    || ('\U{FB50}' <= c <= '\U{FBB1}')
    || ('\U{FBD3}' <= c <= '\U{FD3D}')
    || ('\U{FD50}' <= c <= '\U{FD8F}')
    || ('\U{FD92}' <= c <= '\U{FDC7}')
    || ('\U{FDF0}' <= c <= '\U{FDFB}')
    || ('\U{FE70}' <= c <= '\U{FE74}')
    || ('\U{FE76}' <= c <= '\U{FEFC}')
  }

  /** A regex word character (`\w`): letters, digits and the underscore. */
  predicate IsWordChar(c: char) {
    || ('a' <= c <= 'z') || ('A' <= c <= 'Z') || c == '_'
    || IsDigitChar(c) || IsArabicLetter(c)
  }

  lemma WordCharNotSpace(c: char)
    ensures IsWordChar(c) ==> !IsSpace(c)
  {}

  lemma DecimalNotSpace(c: char)
    ensures IsDecimal(c) ==> !IsSpace(c)
  {}

  lemma DecimalIsWordChar(c: char)
    ensures IsDecimal(c) ==> IsWordChar(c)
  {}

  /** The text `t[..e]` ends with a character other than whitespace. */
  predicate EndsSolid(t: string, e: nat) {
    0 < e <= |t| && !IsSpace(t[e - 1])
  }

  /** `s.isdigit()`: non-empty and every character a digit. */
  predicate IsDigits(s: string) {
    |s| > 0 && forall i :: 0 <= i < |s| ==> IsDigitChar(s[i])
  }

  /** Leading whitespace removed. */
  function TrimStart(s: string): (r: string)
    ensures |r| <= |s|
  {
    if |s| > 0 && IsSpace(s[0]) then TrimStart(s[1..]) else s
  }

  /** Trailing whitespace removed. */
  function TrimEnd(s: string): (r: string)
    ensures |r| <= |s|
  {
    if |s| > 0 && IsSpace(s[|s| - 1]) then TrimEnd(s[..|s| - 1]) else s
  }

  /** `TrimStart` removes a prefix made only of whitespace and leaves a
      string that does not start with whitespace. */
  lemma {:induction false} TrimStartSlice(s: string)
    ensures var r := TrimStart(s);
      && r == s[|s| - |r|..]
      && (r == [] || !IsSpace(r[0]))
      && (forall k :: 0 <= k < |s| - |r| ==> IsSpace(s[k]))
    decreases |s|
  {
    if |s| > 0 && IsSpace(s[0]) {
      TrimStartSlice(s[1..]);
    }
  }

  /** `TrimEnd` removes a suffix made only of whitespace and leaves a
      string that does not end with whitespace. */
  lemma {:induction false} TrimEndSlice(s: string)
    ensures var r := TrimEnd(s);
      && r == s[..|r|]
      && (r == [] || !IsSpace(r[|r| - 1]))
      && (forall k :: |r| <= k < |s| ==> IsSpace(s[k]))
    decreases |s|
  {
    if |s| > 0 && IsSpace(s[|s| - 1]) {
      TrimEndSlice(s[..|s| - 1]);
    }
  }

  /** `s.strip()`. */
  function Strip(s: string): string {
    TrimEnd(TrimStart(s))
  }

  /** Where `Strip(s)` starts inside `s`. */
  function StripOffset(s: string): nat {
    |s| - |TrimStart(s)|
  }

  /** The stripped string is a slice of the original, surrounded only by
      whitespace, and starts and ends with a non-space character. */
  lemma StripSlice(s: string)
    ensures var r, i := Strip(s), StripOffset(s);
      && i + |r| <= |s| && r == s[i..i + |r|]
      && (forall k :: 0 <= k < i ==> IsSpace(s[k]))
      && (forall k :: i + |r| <= k < |s| ==> IsSpace(s[k]))
      && (r == [] || (!IsSpace(r[0]) && !IsSpace(r[|r| - 1])))
  {
    StripIsSlice(s);
    TrimStartSlice(s);
    StripTrailing(s);
    StripEnds(s);
  }

  /** `Strip(s)` is the slice of `s` that starts at `StripOffset(s)`. */
  lemma StripIsSlice(s: string)
    ensures var r, i := Strip(s), StripOffset(s);
      i + |r| <= |s| && r == s[i..i + |r|]
  {
    var t := TrimStart(s);
    TrimStartSlice(s);
    TrimEndSlice(t);
    var r := TrimEnd(t);
    var i := |s| - |t|;
    assert s[i..][..|r|] == s[i..i + |r|];
  }

  /** Only whitespace follows `Strip(s)` in `s`. */
  lemma StripTrailing(s: string)
    ensures var r, i := Strip(s), StripOffset(s);
      forall k :: i + |r| <= k < |s| ==> IsSpace(s[k])
  {
    var t := TrimStart(s);
    TrimStartSlice(s);
    TrimEndSlice(t);
    var r := TrimEnd(t);
    var i := |s| - |t|;
    forall k | i + |r| <= k < |s| ensures IsSpace(s[k]) {
      assert s[k] == t[k - i];
    }
  }

  /** `Strip(s)` neither starts nor ends with whitespace. */
  lemma StripEnds(s: string)
    ensures var r := Strip(s);
      r == [] || (!IsSpace(r[0]) && !IsSpace(r[|r| - 1]))
  {
    var t := TrimStart(s);
    TrimStartSlice(s);
    TrimEndSlice(t);
    var r := TrimEnd(t);
    if r != [] {
      assert r == t[..|r|];
      assert r[0] == t[0];
    }
  }

  /** Every character of `Strip(s)` occurs in `s`. */
  lemma StripChars(s: string, c: char)
    ensures c in Strip(s) ==> c in s
  {
    StripSlice(s);
  }

  /** A string without surrounding whitespace is its own strip; in
      particular `Strip` is idempotent. */
  lemma StripFixed(s: string)
    requires s == [] || (!IsSpace(s[0]) && !IsSpace(s[|s| - 1]))
    ensures Strip(s) == s
  {}

  lemma {:induction false} StripIdempotent(s: string)
    ensures Strip(Strip(s)) == Strip(s)
  {
    StripSlice(s);
    StripFixed(Strip(s));
  }

  /** A non-empty sequence is its front followed by its last element. */
  lemma FrontLast<T>(s: seq<T>)
    requires |s| > 0
    ensures s[..|s| - 1] + [s[|s| - 1]] == s
  {}

  /** `t[q..|w| + q] == w`: the word `w` occurs in `t` at position `q`. */
  predicate StartsAt(t: string, q: nat, w: string) {
    q + |w| <= |t| && t[q..q + |w|] == w
  }

  /** A word found at the start of the slice `t[q..e]` is found in `t` at `q`. */
  lemma StartsAtSlice(t: string, q: nat, e: nat, w: string)
    requires q <= e <= |t|
    ensures StartsAt(t[q..e], 0, w) ==> StartsAt(t, q, w)
  {
    if StartsAt(t[q..e], 0, w) {
      assert t[q..e][0..|w|] == t[q..q + |w|];
    }
  }

  /** The end of the longest run of characters of class `cls` starting at
      `q`: what a greedy `cls*` consumes there. */
  function RunEnd(t: string, q: nat, cls: char -> bool): (r: nat)
    requires q <= |t|
    ensures q <= r <= |t|
    ensures forall k :: q <= k < r ==> cls(t[k])
    ensures r == |t| || !cls(t[r])
    decreases |t| - q
  {
    if q < |t| && cls(t[q]) then RunEnd(t, q + 1, cls) else q
  }

  /** A run of class `cls` that covers `[q, e)` and stops at `e` is the one
      `RunEnd` finds. */
  lemma RunEndAt(t: string, q: nat, e: nat, cls: char -> bool)
    requires q <= e <= |t|
    requires forall k :: q <= k < e ==> cls(t[k])
    requires e == |t| || !cls(t[e])
    ensures RunEnd(t, q, cls) == e
  {}

  /** `\s+` on `[k, s)` and then a greedy, non-empty run of `cls` on `[s, e)`
      that stops at `e`, described without reference to how it is found. */
  predicate SpaceThenRun(t: string, k: nat, s: nat, e: nat, cls: char -> bool) {
    && k < s < e <= |t|
    && (forall i :: k <= i < s ==> IsSpace(t[i]))
    && (forall i :: s <= i < e ==> cls(t[i]))
    && (e == |t| || !cls(t[e]))
  }

  /** When no character of `cls` is whitespace, `\s+` followed by a maximal
      `cls` run can split only one way: at the end of the whitespace run. */
  lemma SpaceThenRunUnique(t: string, k: nat, s: nat, e: nat, cls: char -> bool)
    requires forall c :: cls(c) ==> !IsSpace(c)
    requires SpaceThenRun(t, k, s, e, cls)
    ensures s == RunEnd(t, k, IsSpace) && e == RunEnd(t, s, cls)
  {
    assert cls(t[s]);
    RunEndAt(t, k, s, IsSpace);
    RunEndAt(t, s, e, cls);
  }

  /** `s.split(sep)`: the pieces between occurrences of `sep`; the empty
      string splits into one empty piece. */
  function Split(s: string, sep: char): (r: seq<string>)
    ensures |r| >= 1
    ensures forall k :: 0 <= k < |r| ==> sep !in r[k]
    decreases |s|
  {
    if |s| == 0 then [""]
    else
      var rest := Split(s[1..], sep);
      if s[0] == sep then [""] + rest else [[s[0]] + rest[0]] + rest[1..]
  }

  /** `sep.join(ls)`. */
  function Join(ls: seq<string>, sep: char): string
    decreases |ls|
  {
    if |ls| == 0 then ""
    else if |ls| == 1 then ls[0]
    else ls[0] + [sep] + Join(ls[1..], sep)
  }

  lemma {:induction false} SplitNoSep(s: string, sep: char)
    requires sep !in s
    ensures Split(s, sep) == [s]
    decreases |s|
  {
    if |s| > 0 {
      SplitNoSep(s[1..], sep);
      assert [s[0]] + s[1..] == s;
    }
  }

  lemma {:induction false} SplitAtSep(a: string, b: string, sep: char)
    requires sep !in a
    ensures Split(a + [sep] + b, sep) == [a] + Split(b, sep)
    decreases |a|
  {
    if |a| == 0 {
      assert a + [sep] + b == [sep] + b;
      assert ([sep] + b)[1..] == b;
    } else {
      SplitAtSep(a[1..], b, sep);
      assert (a + [sep] + b)[1..] == a[1..] + [sep] + b;
      assert [a[0]] + a[1..] == a;
    }
  }

  /** Splitting a join gives back the pieces, provided none of them holds
      the separator and there is at least one. */
  lemma {:induction false} SplitJoin(ls: seq<string>, sep: char)
    requires |ls| >= 1
    requires forall k :: 0 <= k < |ls| ==> sep !in ls[k]
    ensures Split(Join(ls, sep), sep) == ls
    decreases |ls|
  {
    if |ls| == 1 {
      SplitNoSep(ls[0], sep);
    } else {
      SplitJoin(ls[1..], sep);
      SplitAtSep(ls[0], Join(ls[1..], sep), sep);
      assert [ls[0]] + ls[1..] == ls;
    }
  }

  /** Joining the pieces of a split gives back the string. */
  lemma {:induction false} JoinSplit(s: string, sep: char)
    ensures Join(Split(s, sep), sep) == s
    decreases |s|
  {
    if |s| > 0 {
      var rest := Split(s[1..], sep);
      JoinSplit(s[1..], sep);
      if s[0] == sep {
        assert Join([""] + rest, sep) == [sep] + Join(rest, sep);
        assert [s[0]] + s[1..] == s;
      } else {
        var head := [[s[0]] + rest[0]] + rest[1..];
        if |rest| == 1 {
          assert Join(head, sep) == [s[0]] + rest[0];
        } else {
          assert Join(rest, sep) == rest[0] + [sep] + Join(rest[1..], sep);
          assert Join(head, sep) == [s[0]] + rest[0] + [sep] + Join(rest[1..], sep);
        }
        assert [s[0]] + s[1..] == s;
      }
    }
  }

  /** A character other than the separator occurs in a join only if it
      occurs in one of the pieces. */
  lemma {:induction false} JoinChars(ls: seq<string>, sep: char, c: char)
    requires c != sep
    requires forall k :: 0 <= k < |ls| ==> c !in ls[k]
    ensures c !in Join(ls, sep)
    decreases |ls|
  {
    if |ls| > 1 {
      JoinChars(ls[1..], sep, c);
    }
  }

  function DigitChar(d: nat): (c: char)
    requires d < 10
    ensures '0' <= c <= '9'
  {
    ['0', '1', '2', '3', '4', '5', '6', '7', '8', '9'][d]
  }

  /** Python's `str(n)` (and the `{i+1}` of an f-string) for a natural number. */
  function NatToString(n: nat): (r: string)
    ensures |r| >= 1
    ensures forall k :: 0 <= k < |r| ==> '0' <= r[k] <= '9'
    decreases n
  {
    if n < 10 then [DigitChar(n)] else NatToString(n / 10) + [DigitChar(n % 10)]
  }

  /** Reads a string of ASCII digits back as a number. */
  function ParseNat(s: string): nat
    decreases |s|
  {
    if |s| == 0 then 0
    else
      var c := s[|s| - 1];
      var d := if '0' <= c <= '9' then (c as int - '0' as int) else 0;
      ParseNat(s[..|s| - 1]) * 10 + d
  }

  /** Decimal formatting is invertible, so distinct numbers print distinctly. */
  lemma {:induction false} ParseNatToString(n: nat)
    ensures ParseNat(NatToString(n)) == n
    decreases n
  {
    if n >= 10 {
      ParseNatToString(n / 10);
      var s := NatToString(n / 10) + [DigitChar(n % 10)];
      assert s[..|s| - 1] == NatToString(n / 10);
    }
  }

  lemma NatToStringInjective(m: nat, n: nat)
    ensures NatToString(m) == NatToString(n) ==> m == n
  {
    ParseNatToString(m);
    ParseNatToString(n);
  }
}
