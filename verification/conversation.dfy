/**
 * The conversation agent: the escalation level that sets the guard's tone,
 * the prompt sent to the language model, the shaping of the model's raw
 * text into one short sentence, and the canned lines used when the model
 * gives nothing usable. The language model itself is an oracle: a function
 * from the prompt to the raw text it returns, or None when the call fails.
 */
module Conversation {
  import opened Wrappers
  import opened Text

  /** `max_escalation` of the agent. */
  const MaxEscalation: nat := 3

  const HostileWords: seq<string> := ["fuck", "shit", "bastard", "bitch"]

  /** Level-indexed instructions given to the language model. */
  const Prompts: seq<string> := [
    "You are a security guard. Unknown person entered. Ask identity. ONE sentence, 15 words max.",
    "You are a stern guard. Tell them to leave private property NOW. ONE sentence, 20 words max.",
    "FINAL warning. Say police will be called. ONE sentence, 20 words max.",
    "MAX alert. Say police notified. ONE sentence, 15 words max."
  ]

  /** Level-indexed fallback lines for a turn without intruder input. */
  const SilentLines: seq<string> := ["Who are you?", "Leave NOW!", "FINAL WARNING!", "POLICE CALLED!"]

  const FriendLine := "I don't recognize you. Call your friend or leave."
  const LostLine := "Wrong room. Check room number and exit."
  const AskLine := "Who are you? Why are you here?"
  const TrespassLine := "You're trespassing! Leave NOW!"
  const LastWarningLine := "LAST WARNING! Police being called!"
  const PoliceLine := "POLICE NOTIFIED! GET OUT!"

  /** Longest reply taken from the language model. */
  const MaxReplyLength: nat := 120

  function Min(a: int, b: int): int {
    if a < b then a else b
  }

  /** Some hostile word occurs in the lower-cased input. */
  predicate IsHostile(input: string) {
    exists k :: 0 <= k < |HostileWords| && Contains(Lower(input), HostileWords[k])
  }

  // ---- the escalation level ----

  /** The level after `escalate`. */
  function Escalated(level: nat): (r: nat)
    ensures level <= r <= level + 1
    ensures r == level <==> level >= MaxEscalation
  {
    if level < MaxEscalation then level + 1 else level
  }

  /** The level after `get_response(input)`: hostile input bumps it, capped at the maximum. */
  function LevelAfterInput(level: nat, input: Option<string>): (r: nat)
    ensures level <= MaxEscalation ==> level <= r <= MaxEscalation
    ensures r != level ==> IsPresent(input) && IsHostile(input.value)
  {
    var l := Min(level, MaxEscalation);
    if IsPresent(input) && IsHostile(input.value) then Min(l + 1, MaxEscalation) else level
  }

  /** `escalate` adds exactly one below the maximum and is a no-op at it. */
  lemma EscalatedExact(level: nat)
    requires level <= MaxEscalation
    ensures level < MaxEscalation ==> Escalated(level) == level + 1
    ensures level == MaxEscalation ==> Escalated(level) == level
    ensures Escalated(level) <= MaxEscalation
  {
  }

  /**
   * Hostile input raises a level within bounds to min(level + 1, 3); absent,
   * empty or civil input leaves it unchanged. Either way the level stays in
   * 0..3 and never decreases.
   */
  lemma LevelAfterInputBounded(level: nat, input: Option<string>)
    requires level <= MaxEscalation
    ensures IsPresent(input) && IsHostile(input.value) ==>
              LevelAfterInput(level, input) == Min(level + 1, MaxEscalation)
    ensures !(IsPresent(input) && IsHostile(input.value)) ==> LevelAfterInput(level, input) == level
    ensures level <= LevelAfterInput(level, input) <= MaxEscalation
  {
  }

  // ---- talking to the language model ----

  /** The prompt for a turn: the level's instruction, then the intruder's words if there are any. */
  function Prompt(input: Option<string>, level: nat): (r: string)
    requires level < |Prompts|
    ensures Prompts[level] <= r && EndsWith(r, "\nYour response:")
    ensures IsPresent(input) ==> Contains(r, input.value)
    ensures !IsPresent(input) ==> |r| == |Prompts[level]| + |"\nYour response:"|
  {
    if IsPresent(input) then
      var head := Prompts[level] + "\nIntruder: \"";
      var tail := "\"\nYour response:";
      var p := head + input.value + tail;
      assert p[|head|..|head| + |input.value|] == input.value;
      ContainsAt(p, input.value, |head|);
      assert p[|p| - |tail|..] == tail && tail[1..] == "\nYour response:";
      assert p[..|Prompts[level]|] == Prompts[level];
      p
    else
      var p := Prompts[level] + "\nYour response:";
      assert p[..|Prompts[level]|] == Prompts[level];
      p
  }

  /** Cutting collapsed text after its first full stop keeps it collapsed and leaves that stop last. */
  lemma CutAtFullStop(single: string)
    requires '"' !in single && Collapsed(single) && NoDoubleStar(single) && '.' in single
    ensures var t := BeforeFirst(single, '.') + ".";
            '"' !in t && Trimmed(t) && NoDoubleStar(t)
            && forall i :: 0 <= i < |t| && t[i] == '.' ==> i == |t| - 1
  {
    var sentence := BeforeFirst(single, '.');
    CollapsedPrefix(single, |sentence|);
    CollapsedAppend(sentence, '.');
    NoDoubleStarSlice(single, 0, |sentence|);
    assert single[0..|sentence|] == sentence;
    NoDoubleStarJoin(sentence, "");
  }

  /**
   * The model's raw text cleaned up: stripped, quotes and `**` removed,
   * whitespace collapsed, and cut after the first full stop.
   */
  function Normalize(raw: string): (t: string)
    ensures '"' !in t
    ensures Trimmed(t) && NoDoubleStar(t)
    ensures forall i :: 0 <= i < |t| && t[i] == '.' ==> i == |t| - 1
  {
    var unquoted := RemoveChar(Strip(raw), '"');
    var plain := RemoveDoubleStars(unquoted);
    var single := CollapseWhitespace(plain);
    CollapseNoDoubleStar(plain);
    assert '"' !in single;
    if '.' in single then
      CutAtFullStop(single);
      BeforeFirst(single, '.') + "."
    else single
  }

  /**
   * The reply taken from the model's raw text: the normalized text cut to
   * 120 characters, or None when the normalized text has 5 characters or
   * fewer.
   */
  function ShapeReply(raw: string): (r: Option<string>)
    ensures r.None? <==> |Normalize(raw)| <= 5
    ensures r.Some? ==> 5 < |r.value| <= MaxReplyLength && r.value <= Normalize(raw)
    ensures r.Some? ==> |r.value| == Min(MaxReplyLength, |Normalize(raw)|)
    ensures r.Some? ==> '"' !in r.value && Collapsed(r.value) && NoDoubleStar(r.value)
    ensures r.Some? ==> forall i :: 0 <= i < |r.value| && r.value[i] == '.' ==> i == |r.value| - 1
  {
    var t := Normalize(raw);
    if |t| > 5 then
      var cut := t[..Min(MaxReplyLength, |t|)];
      CollapsedPrefix(t, |cut|);
      NoDoubleStarSlice(t, 0, |cut|);
      assert t[0..|cut|] == cut;
      Some(cut)
    else None
  }

  /** The characters the cleaning never drops, in order: all but whitespace, double quotes and stars. */
  function Kept(s: string): string {
    NonSpace(RemoveChar(RemoveChar(s, '"'), '*'))
  }

  /** The kept characters of a concatenation are those of each part. */
  lemma KeptAppend(a: string, b: string)
    ensures Kept(a + b) == Kept(a) + Kept(b)
  {
    RemoveCharAppend(a, b, '"');
    RemoveCharAppend(RemoveChar(a, '"'), RemoveChar(b, '"'), '*');
    NonSpaceAppend(RemoveChar(RemoveChar(a, '"'), '*'), RemoveChar(RemoveChar(b, '"'), '*'));
  }

  /** A character that the cleaning never drops is kept exactly when it occurs. */
  lemma KeptMembers(s: string, x: char)
    requires !IsSpace(x) && x != '"' && x != '*'
    ensures x in Kept(s) <==> x in s
  {
    var q := RemoveChar(s, '"');
    var qs := RemoveChar(q, '*');
    NonSpaceMembers(qs);
    assert x in qs <==> x in q by {
      assert multiset(qs)[x] == multiset(q)[x];
    }
    assert x in q <==> x in s by {
      assert multiset(q)[x] == multiset(s)[x];
    }
  }

  /**
   * Each cleaning step before the cut keeps the kept characters: the
   * collapsed text has exactly the raw text's kept characters, in order.
   */
  lemma KeptBeforeCut(raw: string)
    ensures Kept(CollapseWhitespace(RemoveDoubleStars(RemoveChar(Strip(raw), '"')))) == Kept(raw)
  {
    var stripped := Strip(raw);
    var unquoted := RemoveChar(stripped, '"');
    var plain := RemoveDoubleStars(unquoted);
    var single := CollapseWhitespace(plain);
    assert '"' !in single;
    assert RemoveChar(single, '"') == single;
    // dropping whitespace last or first gives the same characters
    NonSpaceRemoveChar(single, '*');
    NonSpaceRemoveChar(plain, '*');
    RemoveDoubleStarsOrder(unquoted);
    assert Kept(single) == RemoveChar(NonSpace(single), '*');
    assert RemoveChar(NonSpace(plain), '*') == NonSpace(RemoveChar(unquoted, '*'));
    NonSpaceRemoveChar(unquoted, '*');
    NonSpaceRemoveChar(stripped, '"');
    NonSpaceStrip(raw);
    NonSpaceRemoveChar(raw, '"');
    NonSpaceRemoveChar(RemoveChar(raw, '"'), '*');
  }

  /**
   * The reply text keeps exactly the kept characters of the raw text up to
   * and including its first full stop, in order; without a full stop, all
   * of them.
   */
  lemma NormalizeContent(raw: string)
    ensures '.' in Kept(raw) ==> Kept(Normalize(raw)) == BeforeFirst(Kept(raw), '.') + "."
    ensures '.' !in Kept(raw) ==> Kept(Normalize(raw)) == Kept(raw)
  {
    var single := CollapseWhitespace(RemoveDoubleStars(RemoveChar(Strip(raw), '"')));
    KeptBeforeCut(raw);
    KeptMembers(single, '.');
    if '.' in single {
      KeptCut(single);
    }
  }

  /** Cutting after the first full stop keeps the kept characters up to and including it. */
  lemma KeptCut(single: string)
    requires '.' in single
    ensures Kept(BeforeFirst(single, '.') + ".") == BeforeFirst(Kept(single), '.') + "."
  {
    var b := BeforeFirst(single, '.');
    var rest := single[|b| + 1..];
    var kb := Kept(b);
    var kr := Kept(rest);
    assert Kept(single) == kb + "." + kr by {
      BeforeFirstSplit(single, '.');
      KeptAppend(b + ".", rest);
      KeptAppend(b, ".");
      KeptFullStop();
    }
    assert '.' !in kb by {
      KeptMembers(b, '.');
    }
    BeforeFirstAt(kb, '.', kr);
    assert Kept(b + ".") == kb + "." by {
      KeptAppend(b, ".");
      KeptFullStop();
    }
  }

  lemma KeptFullStop()
    ensures Kept(".") == "."
  {
    assert RemoveChar(".", '"') == ".";
    assert RemoveChar(".", '*') == ".";
    assert "."[1..] == [];
  }

  /**
   * Text the shaping leaves alone: trimmed and collapsed, without quotes or
   * two stars in a row, and with a full stop, if any, only at the end.
   */
  predicate Clean(t: string) {
    Trimmed(t) && '"' !in t && NoDoubleStar(t) && forall i :: 0 <= i < |t| && t[i] == '.' ==> i == |t| - 1
  }

  /** Normalizing clean text returns it unchanged. */
  lemma NormalizeClean(t: string)
    requires Clean(t)
    ensures Normalize(t) == t
  {
    StripTrimmed(t);
    RemoveDoubleStarsKeeps(t);
    CollapseTrimmed(t);
    if '.' in t {
      var r := BeforeFirst(t, '.');
      assert |r| == |t| - 1;
      assert t == r + ".";
    }
  }

  /** Normalized text is clean, so normalizing twice is normalizing once. */
  lemma NormalizeIdempotent(raw: string)
    ensures Clean(Normalize(raw))
    ensures Normalize(Normalize(raw)) == Normalize(raw)
  {
    NormalizeClean(Normalize(raw));
  }

  /** A clean reply of 6 to 120 characters is taken as it is. */
  lemma ShapeReplyClean(t: string)
    requires Clean(t) && 5 < |t| <= MaxReplyLength
    ensures ShapeReply(t) == Some(t)
  {
    NormalizeClean(t);
    assert t[..|t|] == t;
  }

  /** `_query_llm`: the shaped reply, or None when the model call fails or says too little. */
  function QueryLlm(input: Option<string>, level: nat, llm: string -> Option<string>): (r: Option<string>)
    requires level < |Prompts|
    ensures llm(Prompt(input, level)).None? ==> r.None?
    ensures llm(Prompt(input, level)).Some? ==> (r.None? <==> |Normalize(llm(Prompt(input, level)).value)| <= 5)
    ensures r.Some? ==> 5 < |r.value| <= MaxReplyLength && '"' !in r.value && NoDoubleStar(r.value)
  {
    match llm(Prompt(input, level))
    case None => None
    case Some(raw) => ShapeReply(raw)
  }

  // ---- fallback lines ----

  /** `_get_fallback`: a canned line chosen by the level and, at level 0, by the input's words. */
  function Fallback(input: Option<string>, level: nat): (r: string)
    requires !IsPresent(input) ==> level < |SilentLines|
    ensures 0 < |r| <= MaxReplyLength
  {
    if IsPresent(input) then
      var lower := Lower(input.value);
      if level == 0 then
        if Contains(lower, "friend") then FriendLine
        else if Contains(lower, "lost") then LostLine
        else AskLine
      else if level == 1 then TrespassLine
      else if level == 2 then LastWarningLine
      else PoliceLine
    else SilentLines[level]
  }

  /**
   * What the fallback says: without input, the level's entry of the silent
   * lines; with input, at level 0 'friend' is checked before 'lost' and
   * neither asks who they are, levels
   * 1 and 2 have fixed lines, and from level 3 on the police are notified.
   */
  lemma FallbackChoice(input: Option<string>, level: nat)
    requires !IsPresent(input) ==> level < |SilentLines|
    ensures !IsPresent(input) ==> Fallback(input, level) == SilentLines[level]
    ensures IsPresent(input) && level == 0 && Contains(Lower(input.value), "friend") ==>
              Fallback(input, level) == FriendLine
    ensures (IsPresent(input) && level == 0 && !Contains(Lower(input.value), "friend") &&
             Contains(Lower(input.value), "lost")) ==> Fallback(input, level) == LostLine
    ensures (IsPresent(input) && level == 0 && !Contains(Lower(input.value), "friend") &&
             !Contains(Lower(input.value), "lost")) ==> Fallback(input, level) == AskLine
    ensures IsPresent(input) && level == 1 ==> Fallback(input, level) == TrespassLine
    ensures IsPresent(input) && level == 2 ==> Fallback(input, level) == LastWarningLine
    ensures IsPresent(input) && level >= 3 ==> Fallback(input, level) == PoliceLine
  {
  }

  /** The guard's line for a turn: the model's reply if it gave one, else the fallback. */
  function Respond(input: Option<string>, level: nat, llm: string -> Option<string>): (r: string)
    requires level <= MaxEscalation
    ensures 0 < |r| <= MaxReplyLength
  {
    match QueryLlm(input, level, llm)
    case Some(text) => text
    case None => Fallback(input, level)
  }

  /** The agent: its escalation level, changed in place by `escalate`, `reset` and hostile input. */
  class ConversationAgent {
    const modelName: string
    var escalationLevel: nat

    ghost predicate Valid()
      reads this
    {
      escalationLevel <= MaxEscalation
    }

    constructor (modelName: string)
      ensures Valid() && escalationLevel == 0 && this.modelName == modelName
    {
      this.modelName := modelName;
      escalationLevel := 0;
    }

    /**
     * `get_response`: applies the hostile-word bump, then answers at the
     * (possibly bumped) level, capped at the maximum.
     */
    method GetResponse(userInput: Option<string>, llm: string -> Option<string>) returns (response: string)
      modifies this
      ensures escalationLevel == LevelAfterInput(old(escalationLevel), userInput)
      ensures old(escalationLevel) <= MaxEscalation ==> Valid()
      ensures response == Respond(userInput, Min(escalationLevel, MaxEscalation), llm)
      ensures 0 < |response| <= MaxReplyLength
    {
      var level := Min(escalationLevel, MaxEscalation);
      if IsPresent(userInput) && IsHostile(userInput.value) {
        escalationLevel := Min(level + 1, MaxEscalation);
        level := escalationLevel;
      }
      var reply := QueryLlm(userInput, level, llm);
      if reply.Some? {
        response := reply.value;
      } else {
        response := Fallback(userInput, level);
      }
    }

    method Escalate()
      modifies this
      ensures escalationLevel == Escalated(old(escalationLevel))
      ensures old(Valid()) ==> Valid()
    {
      if escalationLevel < MaxEscalation {
        escalationLevel := escalationLevel + 1;
      }
    }

    method Reset()
      modifies this
      ensures escalationLevel == 0 && Valid()
    {
      escalationLevel := 0;
    }
  }
}
