# Discord ToS self-moderation — a Dafny model

`main.py` runs a self-bot that moderates the user's own Discord messages.
Whenever moderation is switched on and the account itself posts a non-empty
message, the bot does the following:

1. It composes a prompt from a fixed Terms-of-Service brief, the block for the
   chosen enforcement level (`Strict`, `Standard` or `Lenient`) and the
   message, quoted.
2. It sends the prompt to Gemini.
3. It strips the reply and, when the reply holds a triple-backtick fence
   (optionally tagged `json`) around a `{…}` object, it keeps only that
   object.
4. It decodes the result as JSON. If any step fails, it falls back to
   `{"violates_tos": false}` ("fail open").
5. When the analysis says the message violates the ToS, it carries out the
   decision:
   - `action == "delete"` deletes the message;
   - an `edit` (or absent) action works in two steps:
     - it sorts the flagged phrases by length, longest first (a stable
       sort);
     - it replaces every case-insensitive occurrence of each phrase, in
       that order, with the phrase's replacement or with
       `I follow discord tos`.

   The bot edits the message only when the text actually changed.

The Dafny modules mirror that pipeline:

| module | file | what it holds |
|---|---|---|
| `Wrappers` | `wrappers.dfy` | `Option` |
| `Text` | `text.dfy` | Python whitespace, `str.strip`, ASCII case folding, case-insensitive literal matching |
| `Substitution` | `substitution.dfy` | `re.sub(re.escape(p), r, t, flags=re.IGNORECASE)` as a left-to-right scan into kept characters and hits |
| `Judgment` | `judgment.dfy` | the decoded analysis, a violation, the decision, the fail-open analysis |
| `Ordering` | `ordering.dfy` | the stable length-descending order, an in-place array sort proved to produce it |
| `Moderation` | `moderation.dfy` | `moderateMessage`: routing, the replacement loop, the edit-only-if-changed rule |
| `Prompt` | `prompt.dfy` | `getEnforcementInstructions` and the prompt f-string, with its inverse |
| `Extraction` | `extraction.dfy` | the fence regex `jsonRegex`, the strip, and the fail-open handling of `checkMessageWithGemini` |
| `Bot` | `bot.dfy` | `on_message`: the gate and the whole pipeline |

The Gemini call is a parameter `generate: string -> Option<string>`. `None`
stands for any exception raised by the call or by reading `response.text`.
`json.loads`, together with Python's dictionary look-ups on its result, is a
parameter `parse: string -> Option<Analysis>`. `None` means the text is not
JSON.

`main.py` has no rate limiter, no rotation of API credentials, no moderation
modes, no handling of a `rewritten_message` field and no normalization of the
analysis, so the model has none of these either. It reads only
`violates_tos`, `action`, `violations` and each violation's `phrase` and
`replacement`.

## Model

| member | source | states |
|---|---|---|
| Bot.ShouldAnalyse | main.py:177-181 | The gate's definition: moderation switched off, a message by another author, or an empty message each close it on their own; together the three conditions open it. |
| Bot.OnMessage | main.py:173-188 | When moderation is off, the author is not the account itself, or the text is empty, nothing happens. Otherwise the decision is the moderation decision for the analysis of the reply to the composed prompt. An action happens only if the gate held, the model answered and the answer decoded. An edit always changes the text. |
| Prompt.EnforcementInstructions | main.py:82-105 | The level block is non-empty exactly for `Strict`, `Standard` and `Lenient`. Each known block begins and ends with a newline. Any other level gives the empty string. |
| Prompt.Assemble | main.py:110 | The prompt begins with the ToS brief, followed by a newline and the level block. The message appears verbatim between a `"` and a `"`, and the fixed trailer (which starts with that closing `"`) ends the prompt. The length is the sum of the parts. |
| Prompt.ComposePrompt | main.py:109-110 | The prompt for a level and a message begins with the ToS brief, holds the message verbatim right after the header that ends in a `"`, and ends with the trailer; its length is the sum of the parts. |
| Prompt.MessageOf | main.py:110 | Inverse of the prompt layout. Whenever it recovers a message, assembling that message gives back the prompt. |
| Prompt.PromptRoundTrip | main.py:109-110 | For every level and every message, the message is recovered from the composed prompt, so the quoted message is never confused with the surrounding text. |
| Text.Strip | main.py:113 | The stripped text has no leading or trailing Python whitespace and is no longer than the input. |
| Text.StripSlice | main.py:113 | What `strip` keeps is one contiguous piece of the input, with only Python whitespace before it and after it. |
| Text.StripPadded | main.py:113 | Stripping whitespace-only padding from both sides of an already-trimmed text gives that text back. |
| Extraction.CloseFrom | main.py:22 | A capture of the lazy `\{.*?\}\s*```` ends just past a `}` that is followed by optional whitespace and a closing fence. |
| Extraction.CloseFromFirst | main.py:22 | The lazy capture stops at the first such `}`: no earlier brace closes. When it finds none, no brace from there on closes. |
| Extraction.FenceAt | main.py:22 | A match at a position opens with ```` ``` ````; between it and the `{` there is only whitespace, or `json` followed by whitespace. The capture ends at the first `}` after the `{` that closes (the lazy `.*?`), and whitespace and a closing fence follow it. The `json` branch is tried first, as the regex engine does. |
| Extraction.FenceAtComplete | main.py:22 | The converse of `FenceAt`: at any position with the pattern's layout, the match succeeds. That layout is three backticks, an optional `json`, whitespace, a `{`, and later a closing `}`. The capture opens at that `{` and ends at the first closing `}`. Backticks inside the object do not prevent it. |
| Extraction.SearchFrom | main.py:115 | A match that `jsonRegex.search` returns is a match of the pattern at its position, at or after the start. |
| Extraction.SearchLeftmost | main.py:115 | The match returned is the leftmost one: the pattern matches at no earlier position. |
| Extraction.SearchNone | main.py:115 | When the search finds nothing, the pattern matches at no position. |
| Extraction.FenceFound | main.py:115-117 | Wherever the pattern's layout occurs in the reply, the search finds a match at that position or earlier. The decoder then gets that match's capture. |
| Extraction.JsonCandidate | main.py:115-117 | When the search finds no fenced object the decoder gets the stripped reply itself; when it finds one, the decoder gets that match's `{…}` capture, which starts with `{` and ends with `}`. |
| Extraction.UnfencedIsWhole | main.py:115-117 | A reply without a backtick is decoded whole. |
| Extraction.NoMatchIsWhole | main.py:115-117 | A reply in which the fence pattern matches at no position is decoded whole. |
| Extraction.NoFenceMarkIsWhole | main.py:115-117 | A reply with no three backticks in a row (inline code between single backticks included) is decoded whole. |
| Extraction.FencedObjectExtracted | main.py:115-117 | Take a reply where a prefix containing no backtick is followed by a fenced `{…}` (tagged `json` or not) that contains no backtick. The decoder gets exactly that object, whatever follows it. |
| Extraction.CheckMessage | main.py:107-128 | Fail open. No reply, or a reply whose candidate does not decode, gives `{"violates_tos": false}`. A reply whose candidate decodes gives exactly the decoded analysis, and any other verdict comes from the decoder. |
| Extraction.FencedReplyDecoded | main.py:113-119 | Take a whitespace-padded reply that holds prose without a backtick, then one fenced object with no backtick inside it. The analysis is the decoding of that object, or the fail-open analysis if it does not decode. |
| Substitution.Scan | main.py:153 | The scan splits the text into kept characters and hits without losing or reordering anything. |
| Substitution.ScanHits | main.py:153 | Every hit equals the pattern up to ASCII case and is as long as the pattern. |
| Substitution.ScanNeverSkips | main.py:153 | No kept character starts an occurrence of the pattern, so the replacement is leftmost and exhaustive. |
| Substitution.ReplaceAll | main.py:153 | When the pattern does not occur, the substitution leaves the text unchanged. |
| Substitution.ShorterReplacement | main.py:153 | A replacement no longer than the pattern never lengthens the text. When the pattern occurs, a strictly shorter one strictly shortens it. |
| Substitution.LongerReplacement | main.py:153 | A replacement no shorter than the pattern never shortens the text. When the pattern occurs, a strictly longer one strictly lengthens it. |
| Substitution.UnchangedIff | main.py:153 | No occurrence means the text is unchanged. When the replacement's length differs from the pattern's, the text is unchanged exactly when the pattern does not occur. |
| Ordering.ByLengthDesc | main.py:146 | The reference order is a permutation of the violations. |
| Ordering.ByLengthDescSorts | main.py:146 | The reference order is non-increasing in phrase length. Within each length it keeps the violations in their original relative order (stability). |
| Ordering.LengthOrderUnique | main.py:146 | Two stable length-descending arrangements of the same violations are equal, so the order the sort yields is fully determined. |
| Ordering.SinkInto | main.py:146 | One insertion step moves the next violation up past every shorter one before it. Afterwards the prefix that includes it is length-ordered, each group of equal-length phrases keeps its members in their former order, and the elements after it are where they were. |
| Ordering.SortByPhraseLength | main.py:146 | The in-place sort of the array leaves exactly the stable length-descending order of its former contents. |
| Moderation.ReplacementFor | main.py:150-155 | The violation's own replacement is used when it is truthy, otherwise `I follow discord tos`. It is never empty. |
| Moderation.ApplyOne | main.py:149-155 | A violation whose phrase is empty, null or absent from the text leaves the text unchanged. A present phrase whose replacement has a different length changes the text. |
| Moderation.ApplyAll | main.py:148-155 | When no phrase occurs in the text, the whole loop leaves the text unchanged. |
| Moderation.ApplyInOrder | main.py:148-155 | The loop over the sorted array leaves exactly the text that applying its violations one after another gives. |
| Moderation.Decide | main.py:130-159 | No violation means no action. Delete happens exactly for a violation with `action == "delete"`. An edit needs an `edit` (or absent) action, a non-empty list and no null phrase. The edited text is the loop over the length-sorted violations and differs from the message. Conversely, under those conditions the message is edited to that text whenever the loop changed it. A message in which no phrase occurs is never edited. |
| Moderation.ModerateMessage | main.py:130-166 | Sorting a copy of the violations in place and running the replacement loop over it decides what `Decide` decides, including the swallowed `len(None)` failure. |
| Moderation.OverlapExample | main.py:145-155 | In `kill me please`, with `kill` listed before `kill me`, the longer phrase is still replaced first, and the edit is `X please`. |
| Moderation.GivenOrderExample | main.py:148-155 | Applied in the order given, the same two violations would give `X me please`. So the sort decides the outcome. |

## Left out

- The Discord session and its message transport. `message.delete()` and `message.edit()` become the `Delete` and `Edit(text)` decisions. The `NotFound`, `Forbidden` and other exceptions they raise are not modelled.
- The Gemini client, its configuration and its nondeterminism. They are the `generate` parameter, and an exception is `None`.
- The internals of `json.loads`. Decoding is the `parse` parameter. The parser also folds in Python truthiness:
  - `violates_tos` is a boolean;
  - an absent `violations` is the empty list;
  - `action` is absent, a string, or anything else;
  - a phrase is a string (an absent phrase is `""`) or `null`;
  - a replacement is a string or absent/`null`.
- Decoded values of other JSON types. In Python each of them either behaves like a value the model has or raises. Every exception raised after decoding ends with no action. The parser maps each case onto a model value with the same outcome:
  - A reply that decodes to something other than an object (a list, a string, a number, a boolean, `null`): `analysis.get` at main.py:187 raises in `on_message`, which has no handler, so nothing happens. The parser gives a non-violating analysis.
  - A `violations` that is not a list, under `delete`: it is never read and the message is deleted. The parser gives any list.
  - A falsy non-list `violations` (`0`, `false`, `""`, `{}`), under `edit`: the `and violations` test at main.py:142 fails and nothing happens. The parser gives `[]`.
  - A truthy non-list `violations` (a number, `true`, a non-empty string or object), under `edit`: it has no `.sort`. The `except Exception` at main.py:165-166 catches the error and nothing happens. The parser gives one violation with a `null` phrase.
  - A list element that is not an object: `.get` in the sort key raises, with the same result. The parser gives that element a `null` phrase.
  - A phrase that is a number or a boolean: `len` in the sort key raises, with the same result. The parser gives a `null` phrase.
  - A phrase that is an empty list or object: its length is 0 and it is falsy, so the loop skips it as it skips `""`. The parser gives `""`.
  - A phrase that is a non-empty list or object: `re.escape` raises in the loop, and the whole edit is abandoned. The parser gives a `null` phrase.
  - A replacement that is a falsy non-string (`0`, `false`, `[]`, `{}`): the default text is used. The parser gives an absent replacement.
  - A replacement that is a truthy non-string (a number, `true`, a non-empty list or object): beside a truthy phrase, `re.sub` raises a `TypeError` before searching, and the whole edit is abandoned. The parser gives that violation a `null` phrase. Beside a falsy phrase it is never read, and the parser gives an absent replacement.
- `severity`, which the code never reads. A violation's `reason` is carried in the model's `Violation` but, as in the code, no operation reads it.
- Moderation.ApplyOne: backslash escapes in a replacement template are not expanded. A replacement containing `\` is used literally, whereas `re.sub` expands it or raises `re.error`. Raising would abandon the whole edit.
- Text.Lower: case-insensitive matching folds ASCII letters only, not full Unicode case folding.
- Ordering.SortByPhraseLength: the list inside the decoded analysis is sorted in place there. The model sorts a fresh array holding a copy of it, because the sorted list is not read again after the loop.
- The tray icon, its menu and its dialogs, threading, loading `.env`, and logging. These only toggle `isModerationActive` and set `enforcementLevel`, and both are parameters here.
- Text.IsSpace: the whitespace set is that of Python's `str.isspace`, written out for the code points it covers. `re`'s `\s` on `str` patterns agrees with it.
