/** The order in which violations are applied: by phrase length, longest
    first, with equally long phrases kept in the order the model gave them
    (Python's `list.sort` is stable). */
module Ordering {
  import opened Wrappers
  import opened Judgment

  /** The sort key `len(v.get('phrase', ''))`. A `null` phrase has no length
      and never reaches the sort (see `Moderation.Decide`); it is given 0 here. */
  function PhraseLength(v: Violation): nat {
    match v.phrase
    case Some(p) => |p|
    case None => 0
  }

  /** Phrase lengths never increase along `s`. */
  predicate LengthOrdered(s: seq<Violation>) {
    forall i, j :: 0 <= i < j < |s| ==> PhraseLength(s[i]) >= PhraseLength(s[j])
  }

  /** The violations of `s` whose phrase has length `n`, in their order in `s`. */
  function WithLength(s: seq<Violation>, n: nat): seq<Violation> {
    if s == [] then []
    else (if PhraseLength(s[0]) == n then [s[0]] else []) + WithLength(s[1..], n)
  }

  /** `r` holds the elements of `s` in an order that keeps the relative order
      of equally long phrases. */
  ghost predicate SameGroups(s: seq<Violation>, r: seq<Violation>) {
    forall n: nat :: WithLength(r, n) == WithLength(s, n)
  }

  /** The one-element group of `v` for length `n`. */
  function Single(v: Violation, n: nat): seq<Violation> {
    if PhraseLength(v) == n then [v] else []
  }

  lemma {:induction false} WithLengthMember(s: seq<Violation>, n: nat, v: Violation)
    requires v in WithLength(s, n)
    ensures v in s
  {
    WithLengthCons(s, n);
    if v !in Single(s[0], n) {
      WithLengthMember(s[1..], n, v);
    }
  }

  lemma WithLengthCons(s: seq<Violation>, n: nat)
    requires s != []
    ensures WithLength(s, n) == Single(s[0], n) + WithLength(s[1..], n)
  {
  }

  lemma {:induction false} WithLengthAppend(a: seq<Violation>, b: seq<Violation>, n: nat)
    ensures WithLength(a + b, n) == WithLength(a, n) + WithLength(b, n)
    decreases |a|
  {
    if a == [] {
      assert a + b == b;
    } else {
      WithLengthCons(a + b, n);
      WithLengthCons(a, n);
      assert (a + b)[0] == a[0];
      assert (a + b)[1..] == a[1..] + b;
      WithLengthAppend(a[1..], b, n);
    }
  }

  /** Puts `v` in front of the first element of `r` whose phrase is not
      longer than its own. */
  function Insert(v: Violation, r: seq<Violation>): (q: seq<Violation>)
    ensures multiset(q) == multiset(r) + multiset{v}
  {
    if r == [] || PhraseLength(r[0]) <= PhraseLength(v) then [v] + r
    else
      assert r == [r[0]] + r[1..];
      [r[0]] + Insert(v, r[1..])
  }

  /** Inserting keeps a length-ordered sequence ordered. */
  lemma {:induction false} InsertOrdered(v: Violation, r: seq<Violation>)
    requires LengthOrdered(r)
    ensures LengthOrdered(Insert(v, r))
  {
    if r == [] || PhraseLength(r[0]) <= PhraseLength(v) {
    } else {
      var q := Insert(v, r[1..]);
      InsertOrdered(v, r[1..]);
      forall k | 0 <= k < |q| ensures PhraseLength(r[0]) >= PhraseLength(q[k]) {
        assert q[k] in multiset(q);
        assert q[k] in multiset(r[1..]) || q[k] == v;
      }
    }
  }

  /** Inserting puts `v` first in its own group and leaves the others. */
  lemma {:induction false} InsertGroups(v: Violation, r: seq<Violation>, n: nat)
    ensures WithLength(Insert(v, r), n) == Single(v, n) + WithLength(r, n)
  {
    if r == [] || PhraseLength(r[0]) <= PhraseLength(v) {
      WithLengthCons([v] + r, n);
      assert ([v] + r)[1..] == r;
    } else {
      var q := [r[0]] + Insert(v, r[1..]);
      WithLengthCons(q, n);
      assert q[1..] == Insert(v, r[1..]);
      InsertGroups(v, r[1..], n);
      WithLengthCons(r, n);
      assert Single(r[0], n) == [] || Single(v, n) == [];
    }
  }

  /** Stable sort by phrase length, longest first: the reference for what
      the in-place sort must produce. */
  function ByLengthDesc(s: seq<Violation>): (r: seq<Violation>)
    ensures multiset(r) == multiset(s)
  {
    if s == [] then []
    else
      assert s == [s[0]] + s[1..];
      Insert(s[0], ByLengthDesc(s[1..]))
  }

  /** The reference sort orders by length and keeps each group's order. */
  lemma {:induction false} ByLengthDescSorts(s: seq<Violation>)
    ensures LengthOrdered(ByLengthDesc(s))
    ensures SameGroups(s, ByLengthDesc(s))
  {
    if s != [] {
      ByLengthDescSorts(s[1..]);
      InsertOrdered(s[0], ByLengthDesc(s[1..]));
      forall n: nat ensures WithLength(ByLengthDesc(s), n) == WithLength(s, n) {
        InsertGroups(s[0], ByLengthDesc(s[1..]), n);
        WithLengthCons(s, n);
      }
    }
  }

  /** Ordered by length with the groups of equal length kept intact
      determines the sequence: any two such orderings are the same. So every
      stable sort by descending phrase length, Python's included, gives
      `ByLengthDesc`. */
  lemma {:induction false} LengthOrderUnique(r1: seq<Violation>, r2: seq<Violation>)
    requires LengthOrdered(r1) && LengthOrdered(r2) && SameGroups(r1, r2)
    ensures r1 == r2
    decreases |r1|
  {
    if r1 != [] && r2 != [] {
      var k := PhraseLength(r1[0]);
      HeadIsLongest(r1, r2);
      HeadIsLongest(r2, r1);
      WithLengthCons(r1, k);
      WithLengthCons(r2, k);
      assert r1[0] == WithLength(r1, k)[0] == WithLength(r2, k)[0] == r2[0];
      forall n: nat ensures WithLength(r2[1..], n) == WithLength(r1[1..], n) {
        WithLengthCons(r1, n);
        WithLengthCons(r2, n);
        var h := Single(r1[0], n);
        assert WithLength(r1[1..], n) == WithLength(r1, n)[|h|..];
        assert WithLength(r2[1..], n) == WithLength(r2, n)[|h|..];
      }
      LengthOrderUnique(r1[1..], r2[1..]);
      assert r1 == [r1[0]] + r1[1..];
      assert r2 == [r2[0]] + r2[1..];
    } else if r1 != [] {
      NonEmptyGroup(r1, r2);
    } else if r2 != [] {
      NonEmptyGroup(r2, r1);
    }
  }

  /** A nonempty sequence shares a nonempty group only with a nonempty one. */
  lemma NonEmptyGroup(r1: seq<Violation>, r2: seq<Violation>)
    requires r1 != [] && SameGroups(r1, r2)
    ensures r2 != []
  {
    WithLengthCons(r1, PhraseLength(r1[0]));
    assert WithLength(r2, PhraseLength(r1[0])) != [];
  }

  /** The head of a length-ordered sequence is at least as long as any
      element of another sequence with the same groups. */
  lemma HeadIsLongest(r1: seq<Violation>, r2: seq<Violation>)
    requires LengthOrdered(r1) && SameGroups(r1, r2) && r1 != [] && r2 != []
    ensures PhraseLength(r1[0]) >= PhraseLength(r2[0])
  {
    var k := PhraseLength(r2[0]);
    WithLengthCons(r2, k);
    var x := r2[0];
    assert x in WithLength(r1, k);
    WithLengthMember(r1, k, x);
    var i :| 0 <= i < |r1| && r1[i] == x;
    assert i == 0 || PhraseLength(r1[0]) >= PhraseLength(r1[i]);
  }

  /** Swapping two neighbours of different length keeps every group intact. */
  lemma SwapKeepsGroups(s: seq<Violation>, j: nat)
    requires 0 < j < |s| && PhraseLength(s[j - 1]) != PhraseLength(s[j])
    ensures SameGroups(s, s[j - 1 := s[j]][j := s[j - 1]])
  {
    var t := s[j - 1 := s[j]][j := s[j - 1]];
    var x, y := s[j - 1], s[j];
    var a, b := s[..j - 1], s[j + 1..];
    assert s == a + ([x, y] + b);
    assert t == a + ([y, x] + b);
    forall n: nat ensures WithLength(t, n) == WithLength(s, n) {
      SwapInside(a, x, y, b, n);
    }
  }

  /** The group of length `n` is the same whether the two neighbours of
      different length stand as `x, y` or as `y, x`. */
  lemma SwapInside(a: seq<Violation>, x: Violation, y: Violation, b: seq<Violation>, n: nat)
    requires PhraseLength(x) != PhraseLength(y)
    ensures WithLength(a + ([y, x] + b), n) == WithLength(a + ([x, y] + b), n)
  {
    WithLengthAppend(a, [x, y] + b, n);
    WithLengthAppend(a, [y, x] + b, n);
    WithLengthAppend([x, y], b, n);
    WithLengthAppend([y, x], b, n);
    SwapPair(x, y, n);
  }

  lemma SwapPair(x: Violation, y: Violation, n: nat)
    requires PhraseLength(x) != PhraseLength(y)
    ensures WithLength([y, x], n) == WithLength([x, y], n)
  {
    WithLengthCons([x, y], n);
    WithLengthCons([y, x], n);
    WithLengthCons([y], n);
    WithLengthCons([x], n);
    assert [x, y][1..] == [y] && [y, x][1..] == [x];
    assert Single(x, n) == [] || Single(y, n) == [];
  }

  /** An element placed after everything at least as long and before
      everything strictly shorter leaves the sequence ordered. */
  lemma PlacedOrdered(s: seq<Violation>, j: nat)
    requires j < |s| && LengthOrdered(s[..j] + s[j + 1..])
    requires j == 0 || PhraseLength(s[j - 1]) >= PhraseLength(s[j])
    requires forall l :: j < l < |s| ==> PhraseLength(s[j]) > PhraseLength(s[l])
    ensures LengthOrdered(s)
  {
    var rest := s[..j] + s[j + 1..];
    forall p, q | 0 <= p < q < |s| ensures PhraseLength(s[p]) >= PhraseLength(s[q]) {
      if q == j {
        assert p <= j - 1;
        assert p == j - 1 || PhraseLength(rest[p]) >= PhraseLength(rest[j - 1]);
      } else if p != j {
        var p', q' := if p < j then p else p - 1, if q < j then q else q - 1;
        assert rest[p'] == s[p] && rest[q'] == s[q];
      }
    }
  }

  /** Swapping the neighbours at `j - 1` and `j <= i` leaves everything
      after `i` in place, and the rest of `s[..i + 1]` without the moving
      element reads the same. */
  lemma SwapSlices(s: seq<Violation>, t: seq<Violation>, j: nat, i: nat)
    requires 0 < j <= i < |s| && t == s[j - 1 := s[j]][j := s[j - 1]]
    ensures t[i + 1..] == s[i + 1..]
    ensures t[..j - 1] + t[j..i + 1] == s[..j] + s[j + 1..i + 1]
  {
    assert t[..j - 1] == s[..j - 1];
    assert t[j..i + 1] == [s[j - 1]] + s[j + 1..i + 1];
    assert s[..j] == s[..j - 1] + [s[j - 1]];
  }

  /** The inner loop of the insertion: moves `a[i]` left past every strictly
      shorter phrase, so that `a[..i + 1]` becomes ordered. */
  method SinkInto(a: array<Violation>, i: nat)
    requires i < a.Length && LengthOrdered(a[..i])
    modifies a
    ensures LengthOrdered(a[..i + 1]) && SameGroups(old(a[..]), a[..])
    ensures a[i + 1..] == old(a[i + 1..])
  {
    var j := i;
    assert a[..j] + a[j + 1..i + 1] == a[..i];
    while j > 0 && PhraseLength(a[j - 1]) < PhraseLength(a[j])
      invariant 0 <= j <= i
      invariant SameGroups(old(a[..]), a[..])
      invariant LengthOrdered(a[..j] + a[j + 1..i + 1])
      invariant forall l :: j < l <= i ==> PhraseLength(a[j]) > PhraseLength(a[l])
      invariant a[i + 1..] == old(a[i + 1..])
    {
      ghost var before := a[..];
      SwapKeepsGroups(before, j);
      a[j - 1], a[j] := a[j], a[j - 1];
      SwapSlices(before, a[..], j, i);
      j := j - 1;
    }
    ghost var s := a[..i + 1];
    assert s[..j] + s[j + 1..] == a[..j] + a[j + 1..i + 1];
    PlacedOrdered(s, j);
  }

  /** `violations.sort(key=lambda v: len(v.get('phrase', '')), reverse=True)`:
      an in-place stable sort, here insertion sort through swaps of
      neighbours. */
  method SortByPhraseLength(a: array<Violation>)
    modifies a
    ensures a[..] == ByLengthDesc(old(a[..]))
  {
    ghost var s := a[..];
    var i := 0;
    while i < a.Length
      invariant 0 <= i <= a.Length
      invariant LengthOrdered(a[..i])
      invariant SameGroups(s, a[..])
    {
      SinkInto(a, i);
      i := i + 1;
    }
    assert a[..i] == a[..];
    ByLengthDescSorts(s);
    LengthOrderUnique(a[..], ByLengthDesc(s));
  }
}
