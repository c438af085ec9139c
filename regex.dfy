/** Python's `re.split(pattern, text)` for patterns whose matches are never
    empty. A pattern is given as a matcher: a function that, at a search
    position, either fails or returns where the match ends and the text of
    its capture groups. */
module Regex {
  import opened Wrappers

  datatype Match = Match(end: nat, groups: seq<string>)

  type Matcher = (string, nat) -> Option<Match>

  /** Every match starts at the search position, is non-empty and stays
      inside the text. */
  ghost predicate Advances(m: Matcher) {
    forall t: string, p: nat {:trigger m(t, p)} :: m(t, p).Some? ==> p < m(t, p).value.end <= |t|
  }

  /** The split after the last match, which ended at `start`, with the search
      for the next match having reached `pos`: the text up to a match, then
      that match's groups, then the split of the rest. A non-empty match
      cannot start at the end of the text, so the search stops there. */
  function SplitFrom(t: string, m: Matcher, start: nat, pos: nat): seq<string>
    requires Advances(m) && start <= pos <= |t|
    decreases |t| - pos
  {
    if pos == |t| then [t[start..]]
    else
      match m(t, pos)
      case None => SplitFrom(t, m, start, pos + 1)
      case Some(hit) => [t[start..pos]] + hit.groups + SplitFrom(t, m, hit.end, hit.end)
  }

  /** `re.split(pattern, t)`. */
  function Split(t: string, m: Matcher): seq<string>
    requires Advances(m)
  {
    SplitFrom(t, m, 0, 0)
  }

  /** Where the pattern matches nowhere, the split is the whole text. */
  lemma {:induction false} SplitNoMatch(t: string, m: Matcher, start: nat, pos: nat)
    requires Advances(m) && start <= pos <= |t|
    requires forall p :: pos <= p < |t| ==> m(t, p).None?
    ensures SplitFrom(t, m, start, pos) == [t[start..]]
    decreases |t| - pos
  {
    if pos < |t| {
      SplitNoMatch(t, m, start, pos + 1);
    }
  }

  /** The pieces alternate: a piece of text, then `g` groups that satisfy
      `inGroup`, and so on, ending with a piece of text. */
  ghost predicate Alternates(segs: seq<string>, g: nat, inGroup: string -> bool)
    decreases |segs|
  {
    || |segs| == 1
    || (&& |segs| > g + 1
        && (forall j :: 1 <= j <= g ==> inGroup(segs[j]))
        && Alternates(segs[g + 1..], g, inGroup))
  }

  /** When every match has exactly `g` groups and each satisfies `inGroup`,
      the split alternates between text and groups. */
  lemma {:induction false} SplitShape(t: string, m: Matcher, g: nat, inGroup: string -> bool,
                                      start: nat, pos: nat)
    requires Advances(m) && start <= pos <= |t|
    requires forall p: nat :: p < |t| && m(t, p).Some? ==>
               |m(t, p).value.groups| == g
               && forall x :: x in m(t, p).value.groups ==> inGroup(x)
    ensures Alternates(SplitFrom(t, m, start, pos), g, inGroup)
    decreases |t| - pos
  {
    if pos < |t| {
      match m(t, pos)
      case None =>
        SplitShape(t, m, g, inGroup, start, pos + 1);
      case Some(hit) =>
        SplitShape(t, m, g, inGroup, hit.end, hit.end);
        var rest := SplitFrom(t, m, hit.end, hit.end);
        var segs := [t[start..pos]] + hit.groups + rest;
        assert segs[g + 1..] == rest;
        forall j | 1 <= j <= g ensures inGroup(segs[j]) {
          assert segs[j] == hit.groups[j - 1];
          assert hit.groups[j - 1] in hit.groups;
        }
    }
  }

  /** With one group per match, every odd-numbered piece is a group. */
  lemma {:induction false} AlternatesPairs(segs: seq<string>, inGroup: string -> bool, i: nat)
    requires Alternates(segs, 1, inGroup) && i < |segs| && i % 2 == 1
    ensures inGroup(segs[i])
    decreases i
  {
    if i > 1 {
      assert segs[2..][i - 2] == segs[i];
      AlternatesPairs(segs[2..], inGroup, i - 2);
    }
  }

  /** With two groups per match, every piece whose number is not a multiple
      of three is a group. */
  lemma {:induction false} AlternatesTriples(segs: seq<string>, inGroup: string -> bool, i: nat)
    requires Alternates(segs, 2, inGroup) && i < |segs| && i % 3 != 0
    ensures inGroup(segs[i])
    decreases i
  {
    if i > 2 {
      assert segs[3..][i - 3] == segs[i];
      AlternatesTriples(segs[3..], inGroup, i - 3);
    }
  }
}
