/** Literal, case-insensitive replace-all: what `re.sub(re.escape(phrase),
    replacement, text, flags=re.IGNORECASE)` does. The text is scanned left to
    right; where the phrase occurs, the occurrence is consumed whole and
    replaced, otherwise one character is kept and the scan moves on, so
    occurrences never overlap. */
module Substitution {
  import opened Text

  /** One step of the scan: a character kept as it is, or an occurrence of
      the phrase (in the text's own letter case) that gets replaced. */
  datatype Piece = Kept(c: char) | Hit(seg: string)

  /** The text the pieces were cut from. */
  function Source(ps: seq<Piece>): string {
    if ps == [] then []
    else (match ps[0] case Kept(c) => [c] case Hit(seg) => seg) + Source(ps[1..])
  }

  /** The text with every hit replaced by `r`. */
  function Render(ps: seq<Piece>, r: string): string {
    if ps == [] then []
    else (match ps[0] case Kept(c) => [c] case Hit(_) => r) + Render(ps[1..], r)
  }

  /** The leftmost, non-overlapping split of `t` into kept characters and
      occurrences of `p`. Cutting loses nothing, and every hit is an
      occurrence of `p`. */
  function Scan(t: string, p: string): (ps: seq<Piece>)
    requires p != []
    ensures Source(ps) == t
    decreases |t|
  {
    if MatchAt(t, p, 0) then
      var rest := Scan(t[|p|..], p);
      assert Source([Hit(t[..|p|])] + rest) == t[..|p|] + Source(rest);
      [Hit(t[..|p|])] + rest
    else if t == [] then []
    else
      var rest := Scan(t[1..], p);
      assert Source([Kept(t[0])] + rest) == [t[0]] + Source(rest);
      [Kept(t[0])] + rest
  }

  /** Every hit of the scan is an occurrence of the pattern, as long as it. */
  lemma {:induction false} ScanHits(t: string, p: string)
    requires p != []
    ensures forall k :: 0 <= k < |Scan(t, p)| && Scan(t, p)[k].Hit? ==>
      MatchAt(Scan(t, p)[k].seg, p, 0) && |Scan(t, p)[k].seg| == |p|
    decreases |t|
  {
    var ps := Scan(t, p);
    if MatchAt(t, p, 0) {
      ScanHits(t[|p|..], p);
      var hit := t[..|p|];
      assert ps == [Hit(hit)] + Scan(t[|p|..], p);
      assert MatchAt(hit, p, 0) by {
        assert forall k :: 0 <= k < |p| ==> hit[k] == t[k];
      }
    } else if t != [] {
      ScanHits(t[1..], p);
      assert ps == [Kept(t[0])] + Scan(t[1..], p);
    }
  }

  /** Without an occurrence of the phrase the scan keeps every character,
      so rendering it gives the text back. */
  lemma {:induction false} RenderUnmatched(t: string, p: string, r: string)
    requires p != [] && !Occurs(t, p)
    ensures Render(Scan(t, p), r) == t
    decreases |t|
  {
    assert !MatchAt(t, p, 0);
    if t != [] {
      if Occurs(t[1..], p) {
        var i: nat :| i <= |t[1..]| && MatchAt(t[1..], p, i);
        ShiftedMatch(t, p, 1, i);
        assert false;
      }
      RenderUnmatched(t[1..], p, r);
      var ps := Scan(t, p);
      assert ps == [Kept(t[0])] + Scan(t[1..], p);
      assert ps[1..] == Scan(t[1..], p);
      assert t == [t[0]] + t[1..];
    }
  }

  /** The substitution itself: every occurrence found by the scan becomes
      `r`. Without an occurrence of the phrase, the text comes back unchanged. */
  function ReplaceAll(t: string, p: string, r: string): (u: string)
    requires p != []
    ensures !Occurs(t, p) ==> u == t
  {
    if !Occurs(t, p) then
      RenderUnmatched(t, p, r);
      Render(Scan(t, p), r)
    else Render(Scan(t, p), r)
  }

  /** An occurrence at the start is replaced and the scan resumes after it. */
  lemma ReplaceAtStart(t: string, p: string, r: string)
    requires p != [] && MatchAt(t, p, 0)
    ensures ReplaceAll(t, p, r) == r + ReplaceAll(t[|p|..], p, r)
  {
    assert Scan(t, p)[1..] == Scan(t[|p|..], p);
  }

  /** The scan never steps over an occurrence: no kept character starts an
      occurrence of `p` in the original text. */
  lemma {:induction false} ScanNeverSkips(t: string, p: string, k: nat)
    requires p != [] && k < |Scan(t, p)| && Scan(t, p)[k].Kept?
    ensures !MatchAt(t, p, |Source(Scan(t, p)[..k])|)
    decreases |t|
  {
    var ps := Scan(t, p);
    if k == 0 {
      assert Source(ps[..0]) == [];
    } else if MatchAt(t, p, 0) {
      var rest := Scan(t[|p|..], p);
      assert ps == [Hit(t[..|p|])] + rest;
      ScanNeverSkips(t[|p|..], p, k - 1);
      SourceCons(Hit(t[..|p|]), rest, k);
      ShiftedMatch(t, p, |p|, |Source(rest[..k - 1])|);
    } else {
      var rest := Scan(t[1..], p);
      assert ps == [Kept(t[0])] + rest;
      ScanNeverSkips(t[1..], p, k - 1);
      SourceCons(Kept(t[0]), rest, k);
      ShiftedMatch(t, p, 1, |Source(rest[..k - 1])|);
    }
  }

  /** The text of the first `k` pieces, when the first piece is `x`. */
  lemma SourceCons(x: Piece, rest: seq<Piece>, k: nat)
    requires 1 <= k <= |rest| + 1
    ensures Source(([x] + rest)[..k]) == Source([x]) + Source(rest[..k - 1])
  {
    assert ([x] + rest)[..k] == [x] + rest[..k - 1];
    assert ([x] + rest[..k - 1])[1..] == rest[..k - 1];
  }

  /** A match in a suffix of `t` is a match in `t`, shifted. */
  lemma ShiftedMatch(t: string, p: string, d: nat, i: nat)
    requires d <= |t|
    ensures MatchAt(t[d..], p, i) <==> MatchAt(t, p, d + i)
  {
  }

  /** A replacement no longer than the phrase never lengthens the text, and
      a strictly shorter one shortens it whenever the phrase occurs. */
  lemma {:induction false} ShorterReplacement(t: string, p: string, r: string)
    requires p != [] && |r| <= |p|
    ensures |ReplaceAll(t, p, r)| <= |t|
    ensures Occurs(t, p) && |r| < |p| ==> |ReplaceAll(t, p, r)| < |t|
    decreases |t|
  {
    var ps := Scan(t, p);
    if MatchAt(t, p, 0) {
      ShorterReplacement(t[|p|..], p, r);
      assert ps[1..] == Scan(t[|p|..], p);
    } else if t != [] {
      ShorterReplacement(t[1..], p, r);
      assert ps[1..] == Scan(t[1..], p);
      if Occurs(t, p) {
        OccursLater(t, p);
      }
    }
  }

  /** A replacement no shorter than the phrase never shortens the text, and
      a strictly longer one lengthens it whenever the phrase occurs. */
  lemma {:induction false} LongerReplacement(t: string, p: string, r: string)
    requires p != [] && |r| >= |p|
    ensures |ReplaceAll(t, p, r)| >= |t|
    ensures Occurs(t, p) && |r| > |p| ==> |ReplaceAll(t, p, r)| > |t|
    decreases |t|
  {
    var ps := Scan(t, p);
    if MatchAt(t, p, 0) {
      LongerReplacement(t[|p|..], p, r);
      assert ps[1..] == Scan(t[|p|..], p);
    } else if t != [] {
      LongerReplacement(t[1..], p, r);
      assert ps[1..] == Scan(t[1..], p);
      if Occurs(t, p) {
        OccursLater(t, p);
      }
    }
  }

  /** An occurrence that is not at the start is an occurrence in the rest. */
  lemma OccursLater(t: string, p: string)
    requires t != [] && !MatchAt(t, p, 0) && Occurs(t, p)
    ensures Occurs(t[1..], p)
  {
    var i: nat :| i <= |t| && MatchAt(t, p, i);
    ShiftedMatch(t, p, 1, i - 1);
  }

  /** The substitution leaves the text as it was when the phrase does not
      occur in it, and, for a replacement whose length differs from the
      phrase's, only then. */
  lemma UnchangedIff(t: string, p: string, r: string)
    requires p != []
    ensures !Occurs(t, p) ==> ReplaceAll(t, p, r) == t
    ensures |r| != |p| ==> (ReplaceAll(t, p, r) == t <==> !Occurs(t, p))
  {
    if |r| <= |p| {
      ShorterReplacement(t, p, r);
    } else {
      LongerReplacement(t, p, r);
    }
  }
}
