/** The line-by-line cleaning shared by both text normalizers: split on
    `'\n'`, strip every line, drop empty lines and the lines a caller-given
    rule rejects, and join what survives with `'\n'`. */
module Lines {
  import opened Text

  /** A line is dropped when it strips to nothing or the rule rejects its
      stripped form. */
  predicate Dropped(line: string, drop: string -> bool) {
    Strip(line) == "" || drop(Strip(line))
  }

  /** The stripped surviving lines, in their original order. */
  function Keep(lines: seq<string>, drop: string -> bool): seq<string>
    decreases |lines|
  {
    if |lines| == 0 then []
    else
      var last := lines[|lines| - 1];
      Keep(lines[..|lines| - 1], drop) + (if Dropped(last, drop) then [] else [Strip(last)])
  }

  /** The positions of the surviving lines. */
  function KeptIndices(lines: seq<string>, drop: string -> bool): seq<nat>
    decreases |lines|
  {
    if |lines| == 0 then []
    else
      KeptIndices(lines[..|lines| - 1], drop)
        + (if Dropped(lines[|lines| - 1], drop) then [] else [|lines| - 1])
  }

  /** The full text transformation. */
  function Normalize(text: string, drop: string -> bool): string {
    Join(Keep(Split(text, '\n'), drop), '\n')
  }

  lemma {:induction false} KeptLength(lines: seq<string>, drop: string -> bool)
    ensures |KeptIndices(lines, drop)| == |Keep(lines, drop)|
    ensures forall k :: 0 <= k < |KeptIndices(lines, drop)| ==> KeptIndices(lines, drop)[k] < |lines|
    decreases |lines|
  {
    if |lines| > 0 {
      KeptLength(lines[..|lines| - 1], drop);
    }
  }

  lemma {:induction false} KeptAligned(lines: seq<string>, drop: string -> bool)
    ensures var idx, out := KeptIndices(lines, drop), Keep(lines, drop);
      |idx| == |out| && forall k :: 0 <= k < |idx| ==> idx[k] < |lines| && out[k] == Strip(lines[idx[k]])
    decreases |lines|
  {
    KeptLength(lines, drop);
    if |lines| > 0 {
      var n := |lines| - 1;
      KeptAligned(lines[..n], drop);
      KeptLength(lines[..n], drop);
    }
  }

  lemma {:induction false} KeptIncreasing(lines: seq<string>, drop: string -> bool)
    ensures var idx := KeptIndices(lines, drop);
      forall k, m :: 0 <= k < m < |idx| ==> idx[k] < idx[m]
    decreases |lines|
  {
    if |lines| > 0 {
      var n := |lines| - 1;
      KeptIncreasing(lines[..n], drop);
      KeptLength(lines[..n], drop);
    }
  }

  lemma {:induction false} KeptExactly(lines: seq<string>, drop: string -> bool)
    ensures var idx := KeptIndices(lines, drop);
      forall i :: 0 <= i < |lines| ==> (i in idx <==> !Dropped(lines[i], drop))
    decreases |lines|
  {
    if |lines| > 0 {
      var n := |lines| - 1;
      KeptExactly(lines[..n], drop);
      KeptLength(lines[..n], drop);
    }
  }

  /** The output lines are exactly the stripped input lines that are not
      dropped, in input order: line `i` survives if and only if it is not
      dropped, and the `k`-th output line is the stripped line at the `k`-th
      surviving position. */
  lemma KeepExact(lines: seq<string>, drop: string -> bool)
    ensures |KeptIndices(lines, drop)| == |Keep(lines, drop)|
    ensures forall k :: 0 <= k < |KeptIndices(lines, drop)| ==>
              KeptIndices(lines, drop)[k] < |lines|
              && Keep(lines, drop)[k] == Strip(lines[KeptIndices(lines, drop)[k]])
    ensures forall k, m :: 0 <= k < m < |KeptIndices(lines, drop)| ==>
              KeptIndices(lines, drop)[k] < KeptIndices(lines, drop)[m]
    ensures forall i :: 0 <= i < |lines| ==>
              (i in KeptIndices(lines, drop) <==> !Dropped(lines[i], drop))
  {
    KeptAligned(lines, drop);
    KeptIncreasing(lines, drop);
    KeptExactly(lines, drop);
  }

  /** Every surviving line is non-empty, equal to its own strip and not
      rejected by the rule. */
  lemma {:induction false} KeepClean(lines: seq<string>, drop: string -> bool)
    ensures forall l :: l in Keep(lines, drop) ==> l != "" && Strip(l) == l && !drop(l)
    decreases |lines|
  {
    if |lines| > 0 {
      var n := |lines| - 1;
      KeepClean(lines[..n], drop);
      StripIdempotent(lines[n]);
    }
  }

  /** A character that no input line holds is in no surviving line. */
  lemma {:induction false} KeepChars(lines: seq<string>, drop: string -> bool, c: char)
    requires forall l :: l in lines ==> c !in l
    ensures forall l :: l in Keep(lines, drop) ==> c !in l
    decreases |lines|
  {
    if |lines| > 0 {
      var n := |lines| - 1;
      assert forall l :: l in lines[..n] ==> l in lines;
      assert lines[n] in lines;
      KeepChars(lines[..n], drop, c);
      StripChars(lines[n], c);
    }
  }

  /** Lines that are already clean all survive, unchanged. */
  lemma {:induction false} KeepFixed(lines: seq<string>, drop: string -> bool)
    requires forall l :: l in lines ==> l != "" && Strip(l) == l && !drop(l)
    ensures Keep(lines, drop) == lines
    decreases |lines|
  {
    if |lines| > 0 {
      var n := |lines| - 1;
      var prefix, last := lines[..n], lines[n];
      assert last in lines && last != "" && Strip(last) == last && !drop(last);
      assert forall l :: l in prefix ==> l in lines;
      KeepFixed(prefix, drop);
      assert Keep(lines, drop) == Keep(prefix, drop) + [Strip(last)];
      FrontLast(lines);
    }
  }

  /** The normalized text has no empty line, each of its lines is its own
      strip and survives the rule, and it holds no character (other than the
      newline) that the input lacks. */
  lemma {:induction false} NormalizeShape(text: string, drop: string -> bool)
    ensures var r := Normalize(text, drop);
      r == "" || forall l :: l in Split(r, '\n') ==> l != "" && Strip(l) == l && !drop(l)
    ensures forall c :: c != '\n' && c !in text ==> c !in Normalize(text, drop)
  {
    var pieces := Split(text, '\n');
    var kept := Keep(pieces, drop);
    KeepClean(pieces, drop);
    forall c | c != '\n' && c !in text
      ensures c !in Normalize(text, drop)
    {
      JoinSplit(text, '\n');
      forall l | l in pieces ensures c !in l {
        if c in l {
          PieceChars(pieces, '\n', l, c);
        }
      }
      KeepChars(pieces, drop, c);
      forall k | 0 <= k < |kept| ensures c !in kept[k] {
        assert kept[k] in kept;
      }
      JoinChars(kept, '\n', c);
    }
    if kept != [] {
      assert forall k :: 0 <= k < |kept| ==> '\n' !in kept[k] by {
        KeepChars(Split(text, '\n'), drop, '\n');
        forall k | 0 <= k < |kept| ensures '\n' !in kept[k] {
          assert kept[k] in kept;
        }
      }
      SplitJoin(kept, '\n');
    }
  }

  /** A character of a piece occurs in the join. */
  lemma {:induction false} PieceChars(ls: seq<string>, sep: char, l: string, c: char)
    requires l in ls && c in l
    ensures c in Join(ls, sep)
    decreases |ls|
  {
    if |ls| > 1 && l != ls[0] {
      PieceChars(ls[1..], sep, l, c);
    }
  }

  /** Normalizing twice is normalizing once. */
  lemma {:induction false} NormalizeIdempotent(text: string, drop: string -> bool)
    ensures Normalize(Normalize(text, drop), drop) == Normalize(text, drop)
  {
    var kept := Keep(Split(text, '\n'), drop);
    var r := Normalize(text, drop);
    KeepClean(Split(text, '\n'), drop);
    if kept == [] {
      assert Split("", '\n') == [""];
      assert Keep([""], drop) == [];
    } else {
      assert forall k :: 0 <= k < |kept| ==> '\n' !in kept[k] by {
        KeepChars(Split(text, '\n'), drop, '\n');
        forall k | 0 <= k < |kept| ensures '\n' !in kept[k] {
          assert kept[k] in kept;
        }
      }
      SplitJoin(kept, '\n');
      KeepFixed(kept, drop);
    }
  }
}
