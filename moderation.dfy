/** The decision taken on a message once the model has judged it, and the
    phrase-by-phrase rewrite of its text (`moderateMessage`). */
module Moderation {
  import opened Wrappers
  import opened Text
  import opened Substitution
  import opened Judgment
  import opened Ordering

  /** The text a flagged phrase becomes when the model offers no replacement. */
  const DefaultReplacement := "I follow discord tos"

  /** The violation's own replacement when it is truthy (present and not
      empty), else the fixed text. */
  function ReplacementFor(v: Violation): (r: string)
    ensures r != []
    ensures r == DefaultReplacement || v.replacement == Some(r)
    ensures v.replacement.Some? && v.replacement.value != [] ==> r == v.replacement.value
  {
    if v.replacement.Some? && v.replacement.value != [] then v.replacement.value else DefaultReplacement
  }

  /** The violation has a non-empty phrase that occurs in `t`, ignoring case. */
  predicate PhraseOccurs(t: string, v: Violation) {
    v.phrase.Some? && v.phrase.value != [] && Occurs(t, v.phrase.value)
  }

  /** One turn of the loop: replaces every occurrence of the phrase; a
      violation whose phrase is empty or `null` is skipped. */
  function ApplyOne(t: string, v: Violation): (r: string)
    ensures !PhraseOccurs(t, v) ==> r == t
    ensures PhraseOccurs(t, v) && |ReplacementFor(v)| != |v.phrase.value| ==> r != t
  {
    match v.phrase
    case Some(p) =>
      if p != [] then
        UnchangedIff(t, p, ReplacementFor(v));
        ReplaceAll(t, p, ReplacementFor(v))
      else t
    case None => t
  }

  /** The violations applied one after another, each to the text the
      previous ones left. */
  function ApplyAll(t: string, vs: seq<Violation>): (r: string)
    ensures (forall v :: v in vs ==> !PhraseOccurs(t, v)) ==> r == t
  {
    if vs == [] then t
    else ApplyOne(ApplyAll(t, vs[..|vs| - 1]), vs[|vs| - 1])
  }

  /** The action asks for an edit: `analysis.get('action', 'edit') == 'edit'`. */
  predicate RequestsEdit(action: ActionField) {
    action == Missing || action == Text("edit")
  }

  /** Some phrase is `null`: computing its length for the sort raises, and
      the exception handler of `moderateMessage` swallows it. Any other
      value on which the sort key or the loop raises ends the same way. */
  predicate HasNullPhrase(vs: seq<Violation>) {
    exists v :: v in vs && v.phrase.None?
  }

  /** What `moderateMessage` does with a message whose text is `content`. */
  function Decide(content: string, a: Analysis): (d: Decision)
    ensures !a.violatesTos ==> d == NoAction
    ensures d == Delete <==> a.violatesTos && a.action == Text("delete")
    ensures d.Edit? ==> a.violatesTos && RequestsEdit(a.action) && a.violations != [] && !HasNullPhrase(a.violations)
    ensures d.Edit? ==> d.text != content && d.text == ApplyAll(content, ByLengthDesc(a.violations))
    ensures (forall v :: v in a.violations ==> !PhraseOccurs(content, v)) ==> !d.Edit?
    ensures a.violatesTos && RequestsEdit(a.action) && a.violations != [] && !HasNullPhrase(a.violations)
            && ApplyAll(content, ByLengthDesc(a.violations)) != content
            ==> d == Edit(ApplyAll(content, ByLengthDesc(a.violations)))
  {
    if !a.violatesTos then NoAction
    else if a.action == Text("delete") then Delete
    else if RequestsEdit(a.action) && a.violations != [] then
      if HasNullPhrase(a.violations) then NoAction
      else
        var sorted := ByLengthDesc(a.violations);
        assert forall v :: v in sorted ==> v in multiset(a.violations);
        var edited := ApplyAll(content, sorted);
        if edited != content then Edit(edited) else NoAction
    else NoAction
  }

  /** The replacement loop of `moderateMessage`: each violation of the
      (already sorted) list, in turn, rewrites the text. */
  method ApplyInOrder(content: string, list: array<Violation>) returns (edited: string)
    ensures edited == ApplyAll(content, list[..])
  {
    edited := content;
    var i := 0;
    while i < list.Length
      invariant 0 <= i <= list.Length
      invariant edited == ApplyAll(content, list[..i])
    {
      assert list[..i + 1][..i] == list[..i];
      edited := ApplyOne(edited, list[i]);
      i := i + 1;
    }
    assert list[..i] == list[..];
  }

  /** `moderateMessage`: sorts a copy of the violations list in place and
      rewrites the text phrase by phrase. */
  method ModerateMessage(content: string, analysis: Analysis) returns (d: Decision)
    ensures d == Decide(content, analysis)
  {
    if !analysis.violatesTos {
      return NoAction;
    }
    var action := analysis.action;
    var violations := analysis.violations;
    if action == Text("delete") {
      return Delete;
    } else if RequestsEdit(action) && violations != [] {
      if HasNullPhrase(violations) {
        return NoAction;
      }
      var list := new Violation[|violations|](k requires 0 <= k < |violations| => violations[k]);
      assert list[..] == violations;
      SortByPhraseLength(list);
      var edited := ApplyInOrder(content, list);
      if edited != content {
        return Edit(edited);
      }
    }
    return NoAction;
  }

  /** Longest phrase first keeps overlapping phrases intact: with "kill" and
      "kill me" both flagged, "kill me please" becomes "X please", whereas
      applying them in the order given would leave "X me please". (The
      strings are parameters fixed by the precondition so that the verifier
      does not evaluate the scan on literals.) */
  lemma OverlapExample(t: string, short: Violation, long: Violation)
    requires t == "kill me please"
    requires short == Violation(Some("kill"), "", Some("X")) && long == Violation(Some("kill me"), "", Some("X"))
    ensures Decide(t, Analysis(true, [short, long], Missing)) == Edit("X please")
  {
    var a := Analysis(true, [short, long], Missing);
    LongerFirst(short, long);
    LongThenShort(t, short, long);
    ApplyTwo(t, long, short);
    assert !HasNullPhrase(a.violations);
    assert ApplyAll(t, ByLengthDesc(a.violations)) == "X please";
    assert t[0] != 'X';
  }

  /** Applied in the order the model listed them, the shorter phrase eats
      into the longer one: "kill me please" becomes "X me please". */
  lemma GivenOrderExample(t: string, short: Violation, long: Violation)
    requires t == "kill me please"
    requires short == Violation(Some("kill"), "", Some("X")) && long == Violation(Some("kill me"), "", Some("X"))
    ensures ApplyAll(t, [short, long]) == "X me please"
  {
    ShortThenLong(t, short, long);
    ApplyTwo(t, short, long);
  }

  lemma LongerFirst(short: Violation, long: Violation)
    requires short == Violation(Some("kill"), "", Some("X")) && long == Violation(Some("kill me"), "", Some("X"))
    ensures ByLengthDesc([short, long]) == [long, short]
  {
    assert [short, long][1..] == [long];
    assert ByLengthDesc([long]) == [long];
  }

  lemma LongThenShort(t: string, short: Violation, long: Violation)
    requires t == "kill me please"
    requires short == Violation(Some("kill"), "", Some("X")) && long == Violation(Some("kill me"), "", Some("X"))
    ensures ApplyOne(ApplyOne(t, long), short) == "X please"
  {
    InOrder(t, long, short, " please", "X please");
  }

  lemma ShortThenLong(t: string, short: Violation, long: Violation)
    requires t == "kill me please"
    requires short == Violation(Some("kill"), "", Some("X")) && long == Violation(Some("kill me"), "", Some("X"))
    ensures ApplyOne(ApplyOne(t, short), long) == "X me please"
  {
    InOrder(t, short, long, " me please", "X me please");
  }

  /** Applying `v` then `w`, both with "k"-initial phrases and replacement
      "X", to a text that starts with `v`'s phrase followed by `rest`. */
  lemma InOrder(t: string, v: Violation, w: Violation, rest: string, result: string)
    requires v.phrase.Some? && v.phrase.value != [] && v.phrase.value[0] == 'k' && v.replacement == Some("X")
    requires w.phrase.Some? && w.phrase.value != [] && w.phrase.value[0] == 'k' && w.replacement == Some("X")
    requires forall i :: 0 <= i < |rest| ==> rest[i] != 'k' && rest[i] != 'K'
    requires MatchAt(t, v.phrase.value, 0) && t[|v.phrase.value|..] == rest && result == "X" + rest
    ensures ApplyOne(ApplyOne(t, v), w) == result
  {
    ReplaceLeading(t, v, rest);
    ReplaceLeading(result, w, result);
  }

  lemma ApplyTwo(t: string, v: Violation, w: Violation)
    ensures ApplyAll(t, [v, w]) == ApplyOne(ApplyOne(t, v), w)
  {
    assert [v, w][..1] == [v] && [v][..0] == [];
  }

  /** Applying a violation whose phrase starts with "k" and whose replacement
      is "X": a leading occurrence is replaced and the "k"-free rest kept. */
  lemma ReplaceLeading(t: string, v: Violation, rest: string)
    requires v.phrase.Some? && v.phrase.value != [] && v.phrase.value[0] == 'k' && v.replacement == Some("X")
    requires forall i :: 0 <= i < |rest| ==> rest[i] != 'k' && rest[i] != 'K'
    requires t == rest || (MatchAt(t, v.phrase.value, 0) && t[|v.phrase.value|..] == rest)
    ensures ApplyOne(t, v) == if t == rest then t else "X" + rest
  {
    var p := v.phrase.value;
    NoK(rest, p);
    if t != rest {
      ReplaceAtStart(t, p, "X");
    }
  }
  /** A phrase starting with "k" occurs nowhere in a text without a "k". */
  lemma NoK(t: string, p: string)
    requires p != [] && p[0] == 'k'
    requires forall i :: 0 <= i < |t| ==> t[i] != 'k' && t[i] != 'K'
    ensures !Occurs(t, p)
  {
  }
}
