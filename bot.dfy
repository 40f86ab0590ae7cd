/** `on_message`: which messages are judged, and the path from a message to
    what is done to it. The switch and the level set from the tray menu are
    read as parameters, the model call is `generate` (`None` when it
    raises) and `json.loads` is `parse` (`None` when decoding fails). */
module Bot {
  import opened Wrappers
  import opened Text
  import opened Judgment
  import opened Prompt
  import opened Extraction
  import opened Moderation

  /** The gate of `on_message`, by definition: a message is judged only
      while moderation is switched on, when the logged-in account wrote it,
      and when it has text. The ensures spell the definition out as the
      early returns read: each condition alone turns the message away. */
  predicate ShouldAnalyse(isActive: bool, authorId: int, selfId: int, content: string)
    ensures !isActive ==> !ShouldAnalyse(isActive, authorId, selfId, content)
    ensures authorId != selfId ==> !ShouldAnalyse(isActive, authorId, selfId, content)
    ensures content == [] ==> !ShouldAnalyse(isActive, authorId, selfId, content)
    ensures isActive && authorId == selfId && content != [] ==> ShouldAnalyse(isActive, authorId, selfId, content)
  {
    isActive && authorId == selfId && content != []
  }

  /** The reply obtained for a message, and what the script then does. */
  method OnMessage(isActive: bool, authorId: int, selfId: int, content: string, level: string,
                   generate: string -> Option<string>, parse: string -> Option<Analysis>)
    returns (d: Decision)
    ensures !ShouldAnalyse(isActive, authorId, selfId, content) ==> d == NoAction
    ensures ShouldAnalyse(isActive, authorId, selfId, content) ==>
              d == Decide(content, CheckMessage(generate(ComposePrompt(level, content)), parse))
    ensures d != NoAction ==>
              && ShouldAnalyse(isActive, authorId, selfId, content)
              && generate(ComposePrompt(level, content)).Some?
              && parse(JsonCandidate(Strip(generate(ComposePrompt(level, content)).value))).Some?
    ensures d.Edit? ==> d.text != content
  {
    if !isActive {
      return NoAction;
    }
    if authorId != selfId || content == [] {
      return NoAction;
    }
    var analysis := CheckMessage(generate(ComposePrompt(level, content)), parse);
    if analysis.violatesTos {
      d := ModerateMessage(content, analysis);
    } else {
      d := NoAction;
    }
  }
}
