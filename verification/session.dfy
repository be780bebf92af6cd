/**
 * The guard's session flags: whether guarding is on, whether an intruder
 * has been detected and whether a conversation with one is running.
 */
module Session {

  datatype Flags = Flags(guardActive: bool, intruderDetected: bool, conversationActive: bool)

  const Initial := Flags(false, false, false)

  // What each operation of the state manager makes of the flags.

  /** `activate_guard`: guarding is on, the other flags are kept. */
  function GuardActivated(f: Flags): (r: Flags)
    ensures r.guardActive
    ensures r.intruderDetected == f.intruderDetected && r.conversationActive == f.conversationActive
  {
    f.(guardActive := true)
  }

  /** `deactivate_guard`: every flag is cleared, whatever it was. */
  function GuardDeactivated(f: Flags): (r: Flags)
    ensures r == Initial
  {
    Flags(false, false, false)
  }

  /** `detect_intruder`: an intruder is recorded, the other flags are kept. */
  function IntruderDetected(f: Flags): (r: Flags)
    ensures r.intruderDetected
    ensures r.guardActive == f.guardActive && r.conversationActive == f.conversationActive
  {
    f.(intruderDetected := true)
  }

  /** `start_conversation`: a conversation runs, the other flags are kept. */
  function ConversationStarted(f: Flags): (r: Flags)
    ensures r.conversationActive
    ensures r.guardActive == f.guardActive && r.intruderDetected == f.intruderDetected
  {
    f.(conversationActive := true)
  }

  /** `end_conversation`: both the conversation and the intruder are cleared; guarding is kept. */
  function ConversationEnded(f: Flags): (r: Flags)
    ensures !r.conversationActive && !r.intruderDetected
    ensures r.guardActive == f.guardActive
  {
    f.(conversationActive := false, intruderDetected := false)
  }

  /**
   * An intruder episode (detected, talked to, ended) leaves the guard as it
   * was, with neither an intruder nor a conversation on record.
   */
  lemma EpisodeEnds(f: Flags)
    ensures ConversationEnded(ConversationStarted(IntruderDetected(f)))
         == f.(intruderDetected := false, conversationActive := false)
    ensures ConversationEnded(ConversationStarted(IntruderDetected(f))) == ConversationEnded(f)
  {
  }

  /** Applying any operation twice gives the same flags as applying it once. */
  lemma OperationsIdempotent(f: Flags)
    ensures GuardActivated(GuardActivated(f)) == GuardActivated(f)
    ensures GuardDeactivated(GuardDeactivated(f)) == GuardDeactivated(f)
    ensures IntruderDetected(IntruderDetected(f)) == IntruderDetected(f)
    ensures ConversationStarted(ConversationStarted(f)) == ConversationStarted(f)
    ensures ConversationEnded(ConversationEnded(f)) == ConversationEnded(f)
  {
  }

  /** The state manager: three flags, each set and cleared in place. */
  class StateManager {
    var guardActive: bool
    var intruderDetected: bool
    var conversationActive: bool

    /** The flags as a value. */
    function Current(): Flags
      reads this
    {
      Flags(guardActive, intruderDetected, conversationActive)
    }

    constructor ()
      ensures Current() == Initial
    {
      guardActive, intruderDetected, conversationActive := false, false, false;
    }

    method ActivateGuard()
      modifies this
      ensures Current() == GuardActivated(old(Current()))
    {
      guardActive := true;
    }

    method DeactivateGuard()
      modifies this
      ensures Current() == GuardDeactivated(old(Current()))
    {
      guardActive := false;
      intruderDetected := false;
      conversationActive := false;
    }

    method DetectIntruder()
      modifies this
      ensures Current() == IntruderDetected(old(Current()))
    {
      intruderDetected := true;
    }

    method StartConversation()
      modifies this
      ensures Current() == ConversationStarted(old(Current()))
    {
      conversationActive := true;
    }

    method EndConversation()
      modifies this
      ensures Current() == ConversationEnded(old(Current()))
    {
      conversationActive := false;
      intruderDetected := false;
    }
  }
}
