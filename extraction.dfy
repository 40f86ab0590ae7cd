/** Reading the verdict out of the model's reply (`checkMessageWithGemini`
    after the call): strip the reply, prefer the JSON object inside the first
    fenced code block, decode it, and fall back to "no violation" on any
    failure. */
module Extraction {
  import opened Wrappers
  import opened Text
  import opened Judgment

  /** Where a greedy `\s*` that starts at `j` stops. */
  function SkipSpace(s: string, j: nat): (e: nat)
    requires j <= |s|
    ensures j <= e <= |s|
    ensures e == |s| || !IsSpace(s[e])
    decreases |s| - j
  {
    if j < |s| && IsSpace(s[j]) then SkipSpace(s, j + 1) else j
  }

  /** Everything the greedy `\s*` skips is whitespace. */
  lemma {:induction false} SkipSpaceRun(s: string, j: nat)
    requires j <= |s|
    ensures forall k :: j <= k < SkipSpace(s, j) ==> IsSpace(s[k])
    decreases |s| - j
  {
    if j < |s| && IsSpace(s[j]) {
      SkipSpaceRun(s, j + 1);
    }
  }

  /** Three backticks, a fence, start at `i`. */
  predicate FenceMark(s: string, i: nat) {
    i + 3 <= |s| && s[i] == '`' && s[i + 1] == '`' && s[i + 2] == '`'
  }

  /** The language tag `json` starts at `i`. */
  predicate JsonTag(s: string, i: nat) {
    i + 4 <= |s| && s[i] == 'j' && s[i + 1] == 's' && s[i + 2] == 'o' && s[i + 3] == 'n'
  }

  /** A `}` at `f` that ends the capture: it is followed by optional
      whitespace and the closing fence. */
  predicate Closes(s: string, f: nat)
    requires f < |s|
  {
    s[f] == '}' && FenceMark(s, SkipSpace(s, f + 1))
  }

  /** The lazy `.*?\}` of the capture, trying the closing brace at `e`,
      `e + 1`, ... in turn: the end (exclusive) of the capture at the first
      brace that closes. */
  function CloseFrom(s: string, e: nat): (end: Option<nat>)
    requires e <= |s|
    ensures end.Some? ==> e < end.value <= |s| && Closes(s, end.value - 1)
    decreases |s| - e
  {
    if e == |s| then None
    else if Closes(s, e) then Some(e + 1)
    else CloseFrom(s, e + 1)
  }

  /** The lazy capture stops at the first brace that closes, and finds
      nothing exactly when no brace from `e` on closes. */
  lemma {:induction false} CloseFromFirst(s: string, e: nat)
    requires e <= |s|
    ensures var end := CloseFrom(s, e);
            && (end.Some? ==> forall f :: e <= f < end.value - 1 ==> !Closes(s, f))
            && (end.None? ==> forall f :: e <= f < |s| ==> !Closes(s, f))
    decreases |s| - e
  {
    if e < |s| && !Closes(s, e) {
      CloseFromFirst(s, e + 1);
    }
  }

  /** A match of the fence pattern: the opening fence at `fence`, and the
      captured group `s[start..end]`. */
  datatype Capture = Capture(fence: nat, start: nat, end: nat)

  /** The capture, once the whitespace after the opening fence ends at `k`:
      a `{` must stand there. */
  function BraceAt(s: string, i: nat, k: nat): (c: Option<Capture>)
    requires k <= |s|
    ensures c.Some? ==> c.value.fence == i && c.value.start == k && k < c.value.end <= |s|
    ensures c.Some? ==> CloseFrom(s, k + 1) == Some(c.value.end)
  {
    if k < |s| && s[k] == '{' then
      match CloseFrom(s, k + 1)
      case Some(end) => Some(Capture(i, k, end))
      case None => None
    else None
  }

  /** The pattern ```` ```(?:json)?\s*(\{.*?\})\s*``` ```` tried at position
      `i`, the way the backtracking matcher tries it: first with the `json`
      tag, then without. A greedy `\s*` never has to give characters back,
      since a character it gives back is whitespace, which can be neither
      the `{` nor the first backtick that must come next. */
  function FenceAt(s: string, i: nat): (c: Option<Capture>)
    requires i <= |s|
    ensures c.Some? ==> && c.value.fence == i && FenceMark(s, i)
                        && i + 3 <= c.value.start < c.value.end <= |s|
                        && s[c.value.start] == '{' && s[c.value.end - 1] == '}'
                        && FenceMark(s, SkipSpace(s, c.value.end))
    ensures c.Some? ==> CloseFrom(s, c.value.start + 1) == Some(c.value.end)
    ensures c.Some? ==> || (JsonTag(s, i + 3) && i + 7 <= c.value.start
                            && forall g :: i + 7 <= g < c.value.start ==> IsSpace(s[g]))
                        || (forall g :: i + 3 <= g < c.value.start ==> IsSpace(s[g]))
  {
    if !FenceMark(s, i) then None
    else
      var tagged := if JsonTag(s, i + 3) then BraceAt(s, i, SkipSpace(s, i + 7)) else None;
      if tagged.Some? then
        SkipSpaceRun(s, i + 7);
        tagged
      else
        SkipSpaceRun(s, i + 3);
        BraceAt(s, i, SkipSpace(s, i + 3))
  }

  /** `jsonRegex.search` from position `i`: the match at the leftmost
      position where the pattern matches. */
  function SearchFrom(s: string, i: nat): (c: Option<Capture>)
    requires i <= |s|
    ensures c.Some? ==> i <= c.value.fence <= |s| && FenceAt(s, c.value.fence) == c
    decreases |s| - i
  {
    if FenceAt(s, i).Some? then FenceAt(s, i)
    else if i == |s| then None
    else SearchFrom(s, i + 1)
  }

  /** The search returns the leftmost match: the pattern matches at no
      earlier position. */
  lemma {:induction false} SearchLeftmost(s: string, i: nat)
    requires i <= |s| && SearchFrom(s, i).Some?
    ensures forall j :: i <= j < SearchFrom(s, i).value.fence ==> FenceAt(s, j).None?
    decreases |s| - i
  {
    if FenceAt(s, i).None? {
      assert SearchFrom(s, i) == SearchFrom(s, i + 1);
      SearchLeftmost(s, i + 1);
    }
  }

  /** The search finds nothing only when the pattern matches nowhere. */
  lemma {:induction false} SearchNone(s: string, i: nat)
    requires i <= |s| && SearchFrom(s, i).None?
    ensures forall j :: i <= j <= |s| ==> FenceAt(s, j).None?
    decreases |s| - i
  {
    if i < |s| {
      SearchNone(s, i + 1);
    }
  }

  /** The text handed to the JSON decoder: the captured `{...}` of the
      first fenced block if there is one, otherwise the text itself. */
  function JsonCandidate(s: string): (t: string)
    ensures t == s || (|t| >= 2 && t[0] == '{' && t[|t| - 1] == '}')
    ensures SearchFrom(s, 0).None? ==> t == s
    ensures SearchFrom(s, 0).Some? ==> var c := SearchFrom(s, 0).value;
              c.start <= c.end <= |s| && t == s[c.start..c.end]
  {
    match SearchFrom(s, 0)
    case Some(c) =>
      assert FenceAt(s, c.fence) == Some(c);
      var t := s[c.start..c.end];
      assert t[0] == s[c.start] && t[|t| - 1] == s[c.end - 1];
      t
    case None => s
  }

  /** `checkMessageWithGemini` from the reply on: `response` is the reply
      text (`None` when the call or reading its text raised) and `parse`
      stands for `json.loads` (`None` when decoding fails). Every failure
      gives `{"violates_tos": False}`; any other verdict is what the decoder
      made of the candidate. */
  function CheckMessage(response: Option<string>, parse: string -> Option<Analysis>): (a: Analysis)
    ensures response.None? ==> a == FailOpen
    ensures response.Some? && parse(JsonCandidate(Strip(response.value))).None? ==> a == FailOpen
    ensures a != FailOpen ==> response.Some? && parse(JsonCandidate(Strip(response.value))) == Some(a)
    ensures response.Some? && parse(JsonCandidate(Strip(response.value))).Some? ==>
              a == parse(JsonCandidate(Strip(response.value))).value
  {
    match response
    case None => FailOpen
    case Some(text) =>
      match parse(JsonCandidate(Strip(text)))
      case Some(analysis) => analysis
      case None => FailOpen
  }

  /** A reply without a fence is decoded whole. */
  lemma UnfencedIsWhole(s: string)
    requires forall i :: 0 <= i < |s| ==> s[i] != '`'
    ensures JsonCandidate(s) == s
  {
    NoFenceBefore(s, |s|);
    var r := SearchFrom(s, 0);
    if r.Some? {
      assert false;
    }
  }

  /** Wherever the fence pattern matches at no position (backticks that
      open no fenced object included), the reply is decoded whole. */
  lemma NoMatchIsWhole(s: string)
    requires forall j :: 0 <= j <= |s| ==> FenceAt(s, j).None?
    ensures JsonCandidate(s) == s
  {
  }

  /** A reply without three backticks in a row, such as one that quotes
      inline code between single backticks, is decoded whole. */
  lemma NoFenceMarkIsWhole(s: string)
    requires forall j :: 0 <= j <= |s| ==> !FenceMark(s, j)
    ensures JsonCandidate(s) == s
  {
    forall j | 0 <= j <= |s| ensures FenceAt(s, j).None? {
    }
    NoMatchIsWhole(s);
  }

  /** The language tag of a fenced block: `json` or none. */
  function Tag(tagged: bool): string {
    if tagged then "json" else ""
  }

  /** A fenced block. */
  function Fence(tagged: bool, ws1: string, body: string, ws2: string): string {
    "```" + Tag(tagged) + ws1 + body + ws2 + "```"
  }

  /** A whitespace run from `j` up to a non-space character at `e` (or the
      end) is skipped whole. */
  lemma SkipTo(s: string, j: nat, e: nat)
    requires j <= e <= |s| && forall g :: j <= g < e ==> IsSpace(s[g])
    requires e == |s| || !IsSpace(s[e])
    ensures SkipSpace(s, j) == e
  {
    SkipSpaceRun(s, j);
  }

  /** The lazy capture ends at the first brace that closes. */
  lemma {:induction false} CloseAtFirst(s: string, e: nat, f: nat)
    requires e <= f < |s| && Closes(s, f)
    requires forall g :: e <= g < f ==> !Closes(s, g)
    ensures CloseFrom(s, e) == Some(f + 1)
    decreases f - e
  {
    if e < f {
      CloseAtFirst(s, e + 1, f);
    }
  }

  /** The object in the first fenced block is what gets decoded, whatever
      prose precedes it (as long as the prose has no backtick) or follows it,
      when the object itself holds no backtick. */
  lemma FencedObjectExtracted(prefix: string, tagged: bool, ws1: string, inner: string,
                              ws2: string, suffix: string)
    requires forall i :: 0 <= i < |prefix| ==> prefix[i] != '`'
    requires AllSpace(ws1) && AllSpace(ws2)
    requires forall i :: 0 <= i < |inner| ==> inner[i] != '`'
    ensures JsonCandidate(Reply(prefix, tagged, ws1, inner, ws2, suffix)) == "{" + inner + "}"
  {
    var k := |prefix| + 3 + |Tag(tagged)| + |ws1|;
    var f := k + 1 + |inner|;
    ReplyLaid(prefix, tagged, ws1, inner, ws2, suffix);
    CaptureIs(Reply(prefix, tagged, ws1, inner, ws2, suffix), |prefix|, tagged, k, f, f + 1 + |ws2|,
              "{" + inner + "}");
  }

  /** When the fenced object lies at `k..f + 1` and reads `obj`, the
      candidate is `obj`. */
  lemma CaptureIs(s: string, i0: nat, tagged: bool, k: nat, f: nat, c: nat, obj: string)
    requires FencedAt(s, i0, tagged, k, f, c) && s[k..f + 1] == obj
    ensures JsonCandidate(s) == obj
  {
    ExtractAt(s, i0, tagged, k, f, c);
  }

  /** `s` holds, from `i0` on, an opening fence with the given tag and
      whitespace up to the `{` at `k`, a capture without backticks up to the
      `}` at `f`, and whitespace up to the closing fence at `c`; nothing
      before `i0` is a backtick. */
  predicate FencedAt(s: string, i0: nat, tagged: bool, k: nat, f: nat, c: nat) {
    && i0 + 3 + |Tag(tagged)| <= k < f < c && c + 3 <= |s|
    && (forall j :: 0 <= j < i0 ==> s[j] != '`')
    && FenceMark(s, i0) && (tagged ==> JsonTag(s, i0 + 3))
    && (forall g :: i0 + 3 + |Tag(tagged)| <= g < k ==> IsSpace(s[g]))
    && s[k] == '{' && s[f] == '}' && (forall g :: k < g < f ==> s[g] != '`')
    && (forall g :: f < g < c ==> IsSpace(s[g]))
    && FenceMark(s, c)
  }

  /** A reply built from its parts has its fenced object where the parts
      put it. */
  lemma ReplyLaid(prefix: string, tagged: bool, ws1: string, inner: string,
                  ws2: string, suffix: string)
    requires forall i :: 0 <= i < |prefix| ==> prefix[i] != '`'
    requires AllSpace(ws1) && AllSpace(ws2)
    requires forall i :: 0 <= i < |inner| ==> inner[i] != '`'
    ensures var s := Reply(prefix, tagged, ws1, inner, ws2, suffix);
            var k := |prefix| + 3 + |Tag(tagged)| + |ws1|;
            var f := k + 1 + |inner|;
            FencedAt(s, |prefix|, tagged, k, f, f + 1 + |ws2|) && s[k..f + 1] == "{" + inner + "}"
  {
    LayoutOpen(prefix, tagged, ws1, inner, ws2, suffix);
    LayoutSpaces(prefix, tagged, ws1, inner, ws2, suffix);
    LayoutBody(prefix, tagged, ws1, inner, ws2, suffix);
  }

  /** A reply with a fenced block, cut into its parts. */
  function Reply(prefix: string, tagged: bool, ws1: string, inner: string, ws2: string, suffix: string): string {
    prefix + Fence(tagged, ws1, "{" + inner + "}", ws2) + suffix
  }

  /** Where the prose and the opening fence of a reply lie. */
  lemma LayoutOpen(prefix: string, tagged: bool, ws1: string, inner: string, ws2: string, suffix: string)
    requires forall i :: 0 <= i < |prefix| ==> prefix[i] != '`'
    ensures var s := Reply(prefix, tagged, ws1, inner, ws2, suffix);
            && (forall j :: 0 <= j < |prefix| ==> s[j] != '`')
            && FenceMark(s, |prefix|) && (tagged ==> JsonTag(s, |prefix| + 3))
  {
    var s := Reply(prefix, tagged, ws1, inner, ws2, suffix);
    var rest := ws1 + "{" + inner + "}" + ws2 + "```" + suffix;
    assert s == prefix + ("```" + (Tag(tagged) + rest));
  }

  /** Where the whitespace around the object lies. */
  lemma LayoutSpaces(prefix: string, tagged: bool, ws1: string, inner: string, ws2: string, suffix: string)
    requires AllSpace(ws1) && AllSpace(ws2)
    ensures var s := Reply(prefix, tagged, ws1, inner, ws2, suffix);
            var k := |prefix| + 3 + |Tag(tagged)| + |ws1|;
            var f := k + 1 + |inner|;
            && (forall g :: |prefix| + 3 + |Tag(tagged)| <= g < k ==> IsSpace(s[g]))
            && (forall g :: f < g < f + 1 + |ws2| ==> IsSpace(s[g]))
  {
    var s := Reply(prefix, tagged, ws1, inner, ws2, suffix);
    var head := prefix + "```" + Tag(tagged);
    var body := "{" + inner + "}";
    assert s == head + ws1 + (body + ws2 + "```" + suffix);
    SpacesIn(head, ws1, body + ws2 + "```" + suffix);
    assert s == head + ws1 + body + ws2 + ("```" + suffix);
    SpacesIn(head + ws1 + body, ws2, "```" + suffix);
  }

  /** A whitespace part of a concatenation is whitespace where it lies. */
  lemma SpacesIn(x: string, w: string, z: string)
    requires AllSpace(w)
    ensures forall g :: |x| <= g < |x| + |w| ==> IsSpace((x + w + z)[g])
  {
    forall g | |x| <= g < |x| + |w| ensures IsSpace((x + w + z)[g]) {
      assert (x + w + z)[g] == w[g - |x|];
    }
  }

  /** Where the object and the closing fence lie. */
  lemma LayoutBody(prefix: string, tagged: bool, ws1: string, inner: string, ws2: string, suffix: string)
    requires forall i :: 0 <= i < |inner| ==> inner[i] != '`'
    ensures var s := Reply(prefix, tagged, ws1, inner, ws2, suffix);
            var k := |prefix| + 3 + |Tag(tagged)| + |ws1|;
            var f := k + 1 + |inner|;
            var c := f + 1 + |ws2|;
            && |s| == c + 3 + |suffix|
            && s[k..f + 1] == "{" + inner + "}"
            && s[k] == '{' && s[f] == '}'
            && (forall g :: k < g < f ==> s[g] != '`')
            && FenceMark(s, c)
  {
    var s := Reply(prefix, tagged, ws1, inner, ws2, suffix);
    var head := prefix + "```" + Tag(tagged) + ws1;
    var body := "{" + inner + "}";
    assert s == head + body + (ws2 + "```" + suffix);
    Placed(head, body, ws2 + "```" + suffix);
    assert s == (head + body + ws2) + ("```" + suffix);
  }

  /** The middle part of a concatenation lies where its length says. */
  lemma Placed(x: string, y: string, z: string)
    ensures (x + y + z)[|x|..|x| + |y|] == y
  {
  }

  /** No match can start in text without a backtick. */
  lemma NoFenceBefore(s: string, n: nat)
    requires n <= |s| && forall j :: 0 <= j < n ==> s[j] != '`'
    ensures forall j :: 0 <= j < n ==> FenceAt(s, j).None?
  {
  }

  /** The pattern matches at the opening fence `i0` and nowhere before it, so
      the search returns the capture from the `{` at `k` to the `}` at `f`,
      when the capture holds no backtick and `f` is followed by whitespace up
      to the closing fence at `c`. */
  lemma ExtractAt(s: string, i0: nat, tagged: bool, k: nat, f: nat, c: nat)
    requires FencedAt(s, i0, tagged, k, f, c)
    ensures f < |s| && JsonCandidate(s) == s[k..f + 1]
  {
    FencedSearch(s, i0, tagged, k, f, c);
  }

  /** The search finds the fenced object. */
  lemma FencedSearch(s: string, i0: nat, tagged: bool, k: nat, f: nat, c: nat)
    requires FencedAt(s, i0, tagged, k, f, c)
    ensures SearchFrom(s, 0) == Some(Capture(i0, k, f + 1))
  {
    NoFenceBefore(s, i0);
    CaptureEnds(s, k, f, c);
    SkipTo(s, i0 + 3 + |Tag(tagged)|, k);
    BraceOpens(s, i0, k, f + 1);
    FenceOpens(s, i0, tagged, k, Capture(i0, k, f + 1));
    SearchFinds(s, i0);
  }

  /** A search whose every earlier position fails finds the match at `i0`. */
  lemma {:induction false} SearchFinds(s: string, i0: nat)
    requires i0 <= |s| && FenceAt(s, i0).Some?
    requires forall j :: 0 <= j < i0 ==> FenceAt(s, j).None?
    ensures SearchFrom(s, 0) == FenceAt(s, i0)
  {
    var r := SearchFrom(s, 0);
    if r.None? {
      SearchNone(s, 0);
    } else {
      SearchLeftmost(s, 0);
    }
    assert r.Some? && r.value.fence == i0 by {
      if r.None? || r.value.fence > i0 {
        assert false;
      }
    }
  }

  /** The lazy capture that starts with the `{` at `k` ends with the `}` at
      `f` when no backtick stands between them and `f` is followed by
      whitespace and the closing fence at `c`. */
  lemma CaptureEnds(s: string, k: nat, f: nat, c: nat)
    requires k < f < c && c + 3 <= |s| && s[f] == '}'
    requires forall g :: k < g < f ==> s[g] != '`'
    requires forall g :: f < g < c ==> IsSpace(s[g])
    requires FenceMark(s, c)
    ensures CloseFrom(s, k + 1) == Some(f + 1)
  {
    SkipTo(s, f + 1, c);
    forall g | k + 1 <= g < f ensures !Closes(s, g) {
      if s[g] == '}' {
        var h := SkipSpace(s, g + 1);
        SkipSpaceRun(s, g + 1);
        assert !IsSpace(s[f]);
        assert h <= f;
      }
    }
    CloseAtFirst(s, k + 1, f);
  }

  /** The pattern matches at the opening fence `i0` when, after the fence,
      the tag and the whitespace, the `{` at `k` opens a capture `c`. */
  lemma FenceOpens(s: string, i0: nat, tagged: bool, k: nat, c: Capture)
    requires i0 + 3 + |Tag(tagged)| <= k < |s| && s[k] == '{'
    requires FenceMark(s, i0) && (tagged ==> JsonTag(s, i0 + 3))
    requires SkipSpace(s, i0 + 3 + |Tag(tagged)|) == k
    requires BraceAt(s, i0, k) == Some(c)
    ensures FenceAt(s, i0) == Some(c)
  {
    if tagged {
      assert |Tag(tagged)| == 4;
      FenceAtTagged(s, i0);
    } else {
      assert !JsonTag(s, i0 + 3) by {
        assert IsSpace(s[i0 + 3]) || s[i0 + 3] == '{';
      }
      FenceAtUntagged(s, i0);
    }
  }

  /** A `{` whose lazy capture closes gives a capture. */
  lemma BraceOpens(s: string, i: nat, k: nat, end: nat)
    requires k < |s| && s[k] == '{' && CloseFrom(s, k + 1) == Some(end)
    ensures BraceAt(s, i, k) == Some(Capture(i, k, end))
  {
  }

  /** The converse of `FenceAt`'s contract: wherever the pattern's layout
      is present at `i` (a fence, an optional `json`, whitespace, a `{`, and
      later a `}` that closes), the matcher finds it, and its capture opens
      at that `{` and ends at the first closing `}`. Backticks inside the
      object or before the fence do not matter. */
  lemma {:induction false} FenceAtComplete(s: string, i: nat, tagged: bool, k: nat, f: nat)
    requires FenceMark(s, i) && (tagged ==> JsonTag(s, i + 3))
    requires i + 3 + |Tag(tagged)| <= k < f < |s|
    requires forall g :: i + 3 + |Tag(tagged)| <= g < k ==> IsSpace(s[g])
    requires s[k] == '{' && Closes(s, f)
    ensures CloseFrom(s, k + 1).Some?
    ensures FenceAt(s, i) == Some(Capture(i, k, CloseFrom(s, k + 1).value))
  {
    SkipTo(s, i + 3 + |Tag(tagged)|, k);
    CloseFromFirst(s, k + 1);
    var end := CloseFrom(s, k + 1).value;
    BraceOpens(s, i, k, end);
    FenceOpens(s, i, tagged, k, Capture(i, k, end));
  }

  /** Wherever the pattern's layout is present, the search finds a match,
      at that position or earlier, and the decoder gets its capture. */
  lemma {:induction false} FenceFound(s: string, i: nat, tagged: bool, k: nat, f: nat)
    requires FenceMark(s, i) && (tagged ==> JsonTag(s, i + 3))
    requires i + 3 + |Tag(tagged)| <= k < f < |s|
    requires forall g :: i + 3 + |Tag(tagged)| <= g < k ==> IsSpace(s[g])
    requires s[k] == '{' && Closes(s, f)
    ensures SearchFrom(s, 0).Some? && SearchFrom(s, 0).value.fence <= i
    ensures var c := SearchFrom(s, 0).value; JsonCandidate(s) == s[c.start..c.end]
  {
    FenceAtComplete(s, i, tagged, k, f);
    if SearchFrom(s, 0).None? {
      SearchNone(s, 0);
      assert false;
    }
    if SearchFrom(s, 0).value.fence > i {
      SearchLeftmost(s, 0);
      assert false;
    }
  }

  /** With the `json` tag after the fence, the tagged branch is tried first
      and wins when it captures. */
  lemma FenceAtTagged(s: string, i: nat)
    requires FenceMark(s, i) && JsonTag(s, i + 3)
    requires BraceAt(s, i, SkipSpace(s, i + 7)).Some?
    ensures FenceAt(s, i) == BraceAt(s, i, SkipSpace(s, i + 7))
  {
  }

  /** Without the `json` tag, only the untagged branch can match. */
  lemma FenceAtUntagged(s: string, i: nat)
    requires FenceMark(s, i) && !JsonTag(s, i + 3)
    ensures FenceAt(s, i) == BraceAt(s, i, SkipSpace(s, i + 3))
  {
  }

  /** The whole path from a reply to the verdict: a reply that is a fenced
      object with prose around it and padding at both ends is decided by
      decoding exactly that object. */
  lemma FencedReplyDecoded(pad1: string, prefix: string, tagged: bool, ws1: string, inner: string,
                           ws2: string, suffix: string, pad2: string, parse: string -> Option<Analysis>)
    requires AllSpace(pad1) && AllSpace(pad2)
    requires forall i :: 0 <= i < |prefix| ==> prefix[i] != '`'
    requires prefix == [] || !IsSpace(prefix[0])
    requires suffix == [] || !IsSpace(suffix[|suffix| - 1])
    requires AllSpace(ws1) && AllSpace(ws2)
    requires forall i :: 0 <= i < |inner| ==> inner[i] != '`'
    ensures CheckMessage(Some(pad1 + Reply(prefix, tagged, ws1, inner, ws2, suffix) + pad2), parse)
            == parse("{" + inner + "}").GetOr(FailOpen)
  {
    var m := Reply(prefix, tagged, ws1, inner, ws2, suffix);
    assert m[0] == (if prefix == [] then '`' else prefix[0]);
    assert m[|m| - 1] == (if suffix == [] then '`' else suffix[|suffix| - 1]);
    StripPadded(pad1, m, pad2);
    FencedObjectExtracted(prefix, tagged, ws1, inner, ws2, suffix);
  }
}
