/** Character classes and string predicates shared by the response extractor
    and the phrase substitution: Python's whitespace, ASCII case folding and
    case-insensitive literal matching. */
module Text {

  /** The characters Python treats as whitespace, both for `str.strip()` and
      for the `\s` class of a regular expression over `str`. */
  predicate IsSpace(c: char) {
    || c == ' '
    || '\U{9}' <= c <= '\U{D}'
    || '\U{1C}' <= c <= '\U{1F}'
    || c == '\U{85}' || c == '\U{A0}' || c == '\U{1680}'
    || '\U{2000}' <= c <= '\U{200A}'
    || c == '\U{2028}' || c == '\U{2029}' || c == '\U{202F}'
    || c == '\U{205F}' || c == '\U{3000}'
  }

  /** Every character of `s` is whitespace. */
  predicate AllSpace(s: string) {
    forall i :: 0 <= i < |s| ==> IsSpace(s[i])
  }

  /** `s` neither begins nor ends with whitespace. */
  predicate Trimmed(s: string) {
    s == [] || (!IsSpace(s[0]) && !IsSpace(s[|s| - 1]))
  }

  /** Drops the leading whitespace of `s`. */
  function TrimLeft(s: string): (r: string)
    ensures |r| <= |s| && r == s[|s| - |r|..]
    ensures AllSpace(s[..|s| - |r|])
    ensures r == [] || !IsSpace(r[0])
  {
    if s != [] && IsSpace(s[0]) then
      var r := TrimLeft(s[1..]);
      assert s[..|s| - |r|] == [s[0]] + s[1..][..|s| - 1 - |r|];
      r
    else s
  }

  /** Drops the trailing whitespace of `s`. */
  function TrimRight(s: string): (r: string)
    ensures |r| <= |s| && r == s[..|r|]
    ensures AllSpace(s[|r|..])
    ensures r == [] || !IsSpace(r[|r| - 1])
  {
    if s != [] && IsSpace(s[|s| - 1]) then
      var r := TrimRight(s[..|s| - 1]);
      assert s[|r|..] == s[..|s| - 1][|r|..] + [s[|s| - 1]];
      r
    else s
  }

  /** Python's `str.strip()` with no argument. */
  function Strip(s: string): (r: string)
    ensures Trimmed(r)
    ensures |r| <= |s|
  {
    TrimLeft(TrimRight(s))
  }

  /** What `Strip` keeps is one contiguous piece of `s`, with only whitespace
      before it and after it; it ends where the trailing whitespace begins. */
  lemma StripSlice(s: string)
    ensures var m, r := |TrimRight(s)|, Strip(s);
            && |r| <= m <= |s|
            && r == s[m - |r|..m]
            && AllSpace(s[..m - |r|]) && AllSpace(s[m..])
  {
    var m := TrimRight(s);
    var r := TrimLeft(m);
    assert r == Strip(s) && r == m[|m| - |r|..];
    assert s[..|m| - |r|] == m[..|m| - |r|];
    assert s[|m| - |r|..|m|] == m[|m| - |r|..];
    assert r == s[|m| - |r|..|m|];
  }

  /** Stripping undoes padding: whitespace added around a trimmed text is
      exactly what `Strip` removes. */
  lemma {:induction false} StripPadded(a: string, m: string, b: string)
    requires AllSpace(a) && AllSpace(b) && Trimmed(m)
    ensures Strip(a + m + b) == m
  {
    if m == [] {
      assert a + m + b == [] + (a + b);
      TrimRightPadded([], a + b);
    } else {
      TrimRightPadded(a + m, b);
      assert a + m + b == (a + m) + b;
      TrimLeftPadded(a, m);
    }
  }

  lemma {:induction false} TrimRightPadded(m: string, b: string)
    requires AllSpace(b) && (m == [] || !IsSpace(m[|m| - 1]))
    ensures TrimRight(m + b) == TrimRight(m)
    decreases |b|
  {
    if b != [] {
      var b' := b[..|b| - 1];
      assert (m + b)[..|m + b| - 1] == m + b';
      TrimRightPadded(m, b');
    } else {
      assert m + b == m;
    }
  }

  lemma {:induction false} TrimLeftPadded(a: string, m: string)
    requires AllSpace(a) && (m == [] || !IsSpace(m[0]))
    ensures TrimLeft(a + m) == m
    decreases |a|
  {
    if a != [] {
      assert (a + m)[1..] == a[1..] + m;
      TrimLeftPadded(a[1..], m);
    } else {
      assert a + m == m;
    }
  }

  /** ASCII lower-casing, the case folding `re.IGNORECASE` applies to letters. */
  function Lower(c: char): char {
    if 'A' <= c <= 'Z' then (c as int + 32) as char else c
  }

  /** `p` occurs in `t` at position `i`, ignoring the case of letters. */
  predicate MatchAt(t: string, p: string, i: nat) {
    i + |p| <= |t| && forall k :: 0 <= k < |p| ==> Lower(t[i + k]) == Lower(p[k])
  }

  /** `p` occurs somewhere in `t`, ignoring the case of letters. */
  predicate Occurs(t: string, p: string) {
    exists i: nat :: i <= |t| && MatchAt(t, p, i)
  }
}
