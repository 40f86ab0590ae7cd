/** The request sent to the model (`getEnforcementInstructions` and the
    prompt assembled in `checkMessageWithGemini`): the fixed rules text, the
    block for the chosen enforcement level, and the message quoted verbatim. */
module Prompt {
  import opened Wrappers

  /** `BASE_TOS_CONTEXT`: the rules and the answer format asked of the model. */
  const BaseTosContext: string := @"You are an AI assistant that analyzes messages for Discord Terms of Service violations based on the Official ToS (Effective Sept 29, 2025).

Discord's Terms of Service specifically prohibit the following behaviors (Section 9):

1. HARM TO OTHERS:
- Exploiting, harassing, or bullying users
- Spamming, auto-messaging, or auto-dialing
- Infringing Intellectual Property (Copyright/Trademark)
- Attempting to access another user's account
- Planning or causing real-world harm

2. HARM TO DISCORD:
- Intentionally overburdening or attacking Discord systems
- Scraping or using automation (bots/spiders) without written consent
- Transmitting viruses or malicious code
- Using unauthorized software to modify the client (Reverse Engineering)
- Selling or commercializing user data

3. ILLEGAL ACTIVITIES:
- Planning or committing any crime
- Sexual content involving minors (CSAM)
- Threats of violence

Response format (JSON only):
{
    ""violates_tos"": true/false,
    ""severity"": ""partial"" or ""full"",
    ""violations"": [
        {
            ""phrase"": ""exact phrase that violates"",
            ""reason"": ""brief reason linking to specific prohibition above"",
            ""replacement"": ""suggested safe replacement"" or null
        }
    ],
    ""action"": ""edit"" or ""delete""
}

IMPORTANT GUIDELINES:
1. IGNORE ALL URLs, LINKS, and GIFs. Do not flag a message just because it contains a link, even if the link looks suspicious. Assume all links are safe.
2. If the message contains ANY safe content that can be preserved, set severity to ""partial"" and action to ""edit"".
3. Only set severity to ""full"" and action to ""delete"" if the ENTIRE message is a violation.
4. For ""partial"" violations, the ""replacement"" MUST be exactly: ""I follow discord tos"".
5. Ensure the ""phrase"" field matches the text in the message EXACTLY."

  /** The block for the "Strict" level. */
  const StrictBlock: string := "\n" + @"ENFORCEMENT LEVEL: STRICT (Family Friendly & Full Compliance)
- Flag ALL profanity, suggestive jokes, and ""zesty"" comments.
- Flag ALL mentions of client modifications, scripts, or game exploits (Strict adherence to ToS Section 9 ""Harm to Discord"").
- Zero tolerance for harassment, even in jest." + "\n"

  /** The block for the "Standard" level. */
  const StandardBlock: string := "\n" + @"ENFORCEMENT LEVEL: STANDARD (ToS Baseline)
- Allow mild profanity (shit, fuck, etc.) in casual conversation.
- Allow suggestive jokes/humor unless it is Explicit Sexual Content (prohibited in non-age-restricted channels).
- Flag Targeted Harassment or Bullying, but allow friendly banter.
- Flag Malicious Automation: Explicit mentions of scraping, token loggers, or DDoS tools (ToS Section 9)." + "\n"

  /** The block for the "Lenient" level. */
  const LenientBlock: string := "\n" + @"ENFORCEMENT LEVEL: LENIENT (Minimum ToS Compliance)
- Allow ALL profanity, sexual humor, and ""edgy"" jokes.
- ONLY flag Severe ToS Violations: Hate Speech (Slurs), Real Threats of Violence, Doxxing, Illegal Content (CSAM), or Malicious Malware distribution.
- Ignore minor ToS infractions like spam, self-bots, or game modding discussion unless it causes real harm." + "\n"

  /** The three levels the tray menu offers. */
  predicate IsKnownLevel(level: string) {
    level == "Strict" || level == "Standard" || level == "Lenient"
  }

  /** `getEnforcementInstructions`: the block of a known level, and nothing
      for any other name. */
  function EnforcementInstructions(level: string): (block: string)
    ensures block != [] <==> IsKnownLevel(level)
    ensures IsKnownLevel(level) ==> block[0] == '\n' && block[|block| - 1] == '\n'
  {
    if level == "Strict" then StrictBlock
    else if level == "Standard" then StandardBlock
    else if level == "Lenient" then LenientBlock
    else ""
  }

  /** The text before the message, given the rules text and the level
      block: it ends with the opening quote. */
  function Header(base: string, block: string): string {
    base + "\n" + block + "\n\nMessage to analyze:\n\""
  }

  /** Everything of the prompt that comes after the message: it starts with
      the closing quote. */
  const Trailer: string := "\"\n\nProvide your analysis in JSON format."

  /** The prompt f-string, over its parts. It opens with the rules text,
      then the level block on a line of its own, and holds the message,
      unaltered, between a pair of double quotes. */
  function Assemble(base: string, block: string, message: string): (prompt: string)
    ensures |prompt| == |Header(base, block)| + |message| + |Trailer|
    ensures prompt[..|base|] == base
    ensures prompt[|base|..|base| + 1 + |block|] == "\n" + block
    ensures prompt[|Header(base, block)| - 1] == '"' && prompt[|Header(base, block)| + |message|] == '"'
    ensures prompt[|Header(base, block)|..|Header(base, block)| + |message|] == message
    ensures prompt[|Header(base, block)| + |message|..] == Trailer
  {
    var h := Header(base, block);
    assert h == base + ("\n" + block) + "\n\nMessage to analyze:\n\"";
    h + message + Trailer
  }

  /** The prompt sent for a message at an enforcement level. */
  function ComposePrompt(level: string, message: string): (prompt: string)
    ensures var h := Header(BaseTosContext, EnforcementInstructions(level));
            && |prompt| == |h| + |message| + |Trailer|
            && prompt[..|BaseTosContext|] == BaseTosContext
            && prompt[|h|..|h| + |message|] == message
            && prompt[|h| + |message|..] == Trailer
  {
    Assemble(BaseTosContext, EnforcementInstructions(level), message)
  }

  /** Reads the message back out of a prompt with the given parts. */
  function MessageOf(base: string, block: string, prompt: string): (m: Option<string>)
    ensures m.Some? ==> Assemble(base, block, m.value) == prompt
  {
    var h := Header(base, block);
    if |prompt| >= |h| + |Trailer| && prompt[..|h|] == h && prompt[|prompt| - |Trailer|..] == Trailer
    then
      var m := prompt[|h|..|prompt| - |Trailer|];
      assert prompt == h + m + Trailer;
      Some(m)
    else None
  }

  /** The message can always be read back out of its prompt, so two
      different messages never give the same prompt. */
  lemma PromptRoundTrip(level: string, message: string)
    ensures MessageOf(BaseTosContext, EnforcementInstructions(level), ComposePrompt(level, message)) == Some(message)
  {
    RoundTrip(BaseTosContext, EnforcementInstructions(level), message);
  }

  lemma RoundTrip(base: string, block: string, message: string)
    ensures MessageOf(base, block, Assemble(base, block, message)) == Some(message)
  {
    var p := Assemble(base, block, message);
    var h := Header(base, block);
    assert p[..|h|] == h;
    assert p[|p| - |Trailer|..] == Trailer;
  }
}
