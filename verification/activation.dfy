/**
 * Voice activation: the guard is armed when the speech recognizer hears the
 * activation phrase or one of its common misrecognitions. The microphone,
 * the recognizer and the similarity ratio are oracles: each listening
 * attempt is given as the ambient energy level measured before it and what
 * the recognizer made of it, and the similarity ratio is a function.
 */
module Activation {
  import opened Wrappers
  import opened Text

  const DefaultPhrase := "guard my room"

  /** Phrases accepted when they occur anywhere in what was heard. */
  const Alternatives: seq<string> := [
    "guard my room", "guide my room", "god my room", "card my room",
    "guard the room", "guide the room", "guard ma room", "guide ma room",
    "gard my room", "guard room", "guide room"
  ]

  const GuardWords: seq<string> := ["guard", "guide", "god", "card", "gard"]
  const RoomWords: seq<string> := ["room", "rum"]

  /** Default threshold of the fuzzy comparison. */
  const MatchThreshold: real := 0.65

  /** Energy threshold before the first calibration. */
  const InitialEnergy: real := 300.0

  /** Some word of `words` occurs in `s`. */
  predicate AnyIn(words: seq<string>, s: string) {
    exists k :: 0 <= k < |words| && Contains(s, words[k])
  }

  /** What the matcher compares: the recognized text lower-cased and stripped. */
  function Heard(text: string): string {
    Strip(Lower(text))
  }

  /**
   * `_fuzzy_match`: an alternative occurs in the heard text, or its
   * similarity to the activation phrase reaches the threshold, or it holds
   * both a guard-like and a room-like word.
   */
  predicate FuzzyMatch(phrase: string, text: string, similarity: (string, string) -> real, threshold: real) {
    var h := Heard(text);
    AnyIn(Alternatives, h)
    || similarity(phrase, h) >= threshold
    || (AnyIn(GuardWords, h) && AnyIn(RoomWords, h))
  }

  /** A text that starts with guard word g and ends with "room" has both kinds of keyword. */
  lemma KeywordsAtEnds(alt: string, g: nat)
    requires g < |GuardWords| && GuardWords[g] <= alt
    requires |alt| >= 4 && alt[|alt| - 4..] == RoomWords[0]
    ensures AnyIn(GuardWords, alt) && AnyIn(RoomWords, alt)
  {
    ContainsAt(alt, GuardWords[g], 0);
    ContainsAt(alt, RoomWords[0], |alt| - 4);
  }

  /** Every alternative contains a guard-like word and a room-like word. */
  lemma AlternativeKeywords(k: nat)
    requires k < |Alternatives|
    ensures AnyIn(GuardWords, Alternatives[k]) && AnyIn(RoomWords, Alternatives[k])
  {
    var alt := Alternatives[k];
    var g := if k == 2 then 2 else if k == 3 then 3 else if k == 8 then 4
             else if k == 0 || k == 4 || k == 6 || k == 9 then 0 else 1;
    KeywordsAtEnds(alt, g);
  }

  /**
   * The list of alternatives adds nothing to the keyword test: the heard
   * text matches exactly when the similarity reaches the threshold or it
   * holds a guard-like and a room-like word.
   */
  lemma FuzzyMatchByKeywords(phrase: string, text: string, similarity: (string, string) -> real, threshold: real)
    ensures FuzzyMatch(phrase, text, similarity, threshold) <==>
              similarity(phrase, Heard(text)) >= threshold
              || (AnyIn(GuardWords, Heard(text)) && AnyIn(RoomWords, Heard(text)))
  {
    var h := Heard(text);
    if AnyIn(Alternatives, h) {
      var k :| 0 <= k < |Alternatives| && Contains(h, Alternatives[k]);
      AlternativeKeywords(k);
      var g :| 0 <= g < |GuardWords| && Contains(Alternatives[k], GuardWords[g]);
      var r :| 0 <= r < |RoomWords| && Contains(Alternatives[k], RoomWords[r]);
      ContainsTransitive(h, Alternatives[k], GuardWords[g]);
      ContainsTransitive(h, Alternatives[k], RoomWords[r]);
    }
  }

  /** Saying the phrase, whatever surrounds it, activates regardless of the similarity ratio. */
  lemma PhraseActivates(phrase: string, text: string, similarity: (string, string) -> real, threshold: real)
    requires Contains(Heard(text), DefaultPhrase)
    ensures FuzzyMatch(phrase, text, similarity, threshold)
  {
    assert Alternatives[0] == DefaultPhrase;
  }

  /**
   * The threshold kept after the first calibration: below 150 it is raised
   * to 200, above 800 it is lowered to 400, otherwise it is kept.
   */
  function Calibrate(ambient: real): (e: real)
    ensures 150.0 <= e <= 800.0
    ensures 150.0 <= ambient <= 800.0 ==> e == ambient
    ensures ambient < 150.0 ==> e == 200.0
    ensures ambient > 800.0 ==> e == 400.0
  {
    if ambient < 150.0 then 200.0
    else if ambient > 800.0 then 400.0
    else ambient
  }

  // ---- listening ----

  /** What the recognizer made of one attempt. */
  datatype Outcome =
    | Recognized(text: string)
    | WaitTimeout
    | UnknownValue
    | OtherError
    | Interrupted

  /** One listening attempt: the ambient energy measured before it and its outcome. */
  datatype Attempt = Attempt(ambient: real, outcome: Outcome)

  datatype ListenResult = Activated | NotActivated | Cancelled

  /** The activator's mutable state. */
  datatype Listener = Listener(energy: real, lastHeard: Option<string>)

  /** The activator's verdict on a recognized text: `_fuzzy_match` at the default threshold. */
  function Matcher(phrase: string, similarity: (string, string) -> real): string -> bool {
    text => FuzzyMatch(phrase, text, similarity, MatchThreshold)
  }

  /** The attempt ends the listening: the user interrupted, or the text matched. */
  predicate Decisive(a: Attempt, matches: string -> bool) {
    a.outcome.Interrupted? || (a.outcome.Recognized? && matches(a.outcome.text))
  }

  /**
   * `listen_for_activation` over the attempts it gets: each attempt first
   * takes the ambient energy as threshold; recognized text is remembered and
   * activates on a match; timeouts, unclear audio and other errors move on to
   * the next attempt; an interrupt ends the listening. `matches` is the
   * matcher's verdict on a text (see Matcher).
   */
  function Listen(attempts: seq<Attempt>, matches: string -> bool, st: Listener)
    : (ListenResult, Listener)
  {
    if attempts == [] then (NotActivated, st)
    else
      var a := attempts[0];
      var st1 := st.(energy := a.ambient);
      match a.outcome
      case Interrupted => (Cancelled, st1)
      case Recognized(text) =>
        var st2 := st1.(lastHeard := Some(text));
        if matches(text) then (Activated, st2)
        else Listen(attempts[1..], matches, st2)
      case _ => Listen(attempts[1..], matches, st1)
  }

  /**
   * The first decisive attempt decides: it activates when it is recognized
   * text and cancels when it is an interrupt; with no decisive attempt the
   * result is "not activated". The threshold is the ambient energy of the
   * last attempt made.
   */
  lemma {:induction false} ListenDecidedByFirst(attempts: seq<Attempt>, matches: string -> bool, st: Listener)
    ensures (forall j :: 0 <= j < |attempts| ==> !Decisive(attempts[j], matches)) ==>
              Listen(attempts, matches, st).0 == NotActivated
    ensures forall i :: 0 <= i < |attempts| && Decisive(attempts[i], matches) &&
                        (forall j :: 0 <= j < i ==> !Decisive(attempts[j], matches)) ==>
              Listen(attempts, matches, st).0 ==
                (if attempts[i].outcome.Recognized? then Activated else Cancelled)
              && Listen(attempts, matches, st).1.energy == attempts[i].ambient
    ensures attempts != [] && Listen(attempts, matches, st).0 == NotActivated ==>
              Listen(attempts, matches, st).1.energy == attempts[|attempts| - 1].ambient
  {
    if forall j :: 0 <= j < |attempts| ==> !Decisive(attempts[j], matches) {
      ListenNoDecisive(attempts, matches, st);
    }
    forall i | 0 <= i < |attempts| && Decisive(attempts[i], matches) &&
               (forall j :: 0 <= j < i ==> !Decisive(attempts[j], matches))
      ensures Listen(attempts, matches, st).0 ==
                (if attempts[i].outcome.Recognized? then Activated else Cancelled)
              && Listen(attempts, matches, st).1.energy == attempts[i].ambient
    {
      ListenFirstDecisive(attempts, matches, st, i);
    }
    ListenLastEnergy(attempts, matches, st);
  }

  /** The listener after an attempt that does not end the listening. */
  function AfterAttempt(a: Attempt, st: Listener): Listener {
    var st1 := st.(energy := a.ambient);
    if a.outcome.Recognized? then st1.(lastHeard := Some(a.outcome.text)) else st1
  }

  /** An attempt that does not decide hands the listening on to the next attempts. */
  lemma ListenSkips(attempts: seq<Attempt>, matches: string -> bool, st: Listener)
    requires attempts != [] && !Decisive(attempts[0], matches)
    ensures Listen(attempts, matches, st) == Listen(attempts[1..], matches, AfterAttempt(attempts[0], st))
  {
  }

  /** Without a decisive attempt the listening is not activated, and the threshold is the last attempt's. */
  lemma {:induction false} ListenNoDecisive(attempts: seq<Attempt>, matches: string -> bool, st: Listener)
    requires forall j :: 0 <= j < |attempts| ==> !Decisive(attempts[j], matches)
    ensures Listen(attempts, matches, st).0 == NotActivated
  {
    if attempts != [] {
      ListenSkips(attempts, matches, st);
      forall j | 0 <= j < |attempts| - 1 ensures !Decisive(attempts[1..][j], matches) {
        assert attempts[1..][j] == attempts[j + 1];
      }
      ListenNoDecisive(attempts[1..], matches, AfterAttempt(attempts[0], st));
    }
  }

  /** The first decisive attempt, at position i, decides the result and sets the threshold. */
  lemma {:induction false} ListenFirstDecisive(attempts: seq<Attempt>, matches: string -> bool, st: Listener, i: nat)
    requires i < |attempts| && Decisive(attempts[i], matches)
    requires forall j :: 0 <= j < i ==> !Decisive(attempts[j], matches)
    ensures Listen(attempts, matches, st).0 == (if attempts[i].outcome.Recognized? then Activated else Cancelled)
    ensures Listen(attempts, matches, st).1.energy == attempts[i].ambient
  {
    if i > 0 {
      ListenSkips(attempts, matches, st);
      var rest := attempts[1..];
      forall j | 0 <= j < i - 1 ensures !Decisive(rest[j], matches) {
        assert rest[j] == attempts[j + 1];
      }
      assert rest[i - 1] == attempts[i];
      ListenFirstDecisive(rest, matches, AfterAttempt(attempts[0], st), i - 1);
    }
  }

  /** A listening that ends without activation took its threshold from the last attempt. */
  lemma {:induction false} ListenLastEnergy(attempts: seq<Attempt>, matches: string -> bool, st: Listener)
    ensures attempts != [] && Listen(attempts, matches, st).0 == NotActivated ==>
              Listen(attempts, matches, st).1.energy == attempts[|attempts| - 1].ambient
  {
    if attempts != [] && !Decisive(attempts[0], matches) {
      ListenSkips(attempts, matches, st);
      var rest := attempts[1..];
      ListenLastEnergy(rest, matches, AfterAttempt(attempts[0], st));
      if rest != [] {
        assert rest[|rest| - 1] == attempts[|attempts| - 1];
      }
    }
  }

  /**
   * The remembered text changes only on recognized attempts: when nothing
   * was recognized it is the one held before, and on activation it is the
   * text that matched.
   */
  lemma {:induction false} ListenLastHeard(attempts: seq<Attempt>, matches: string -> bool, st: Listener)
    ensures (forall j :: 0 <= j < |attempts| ==> !attempts[j].outcome.Recognized?) ==>
              Listen(attempts, matches, st).1.lastHeard == st.lastHeard
    ensures Listen(attempts, matches, st).0 == Activated ==>
              var lh := Listen(attempts, matches, st).1.lastHeard;
              lh.Some? && matches(lh.value)
  {
    if attempts != [] {
      var a := attempts[0];
      var st1 := st.(energy := a.ambient);
      var st2 := if a.outcome.Recognized? then st1.(lastHeard := Some(a.outcome.text)) else st1;
      ListenLastHeard(attempts[1..], matches, st2);
      if forall j :: 0 <= j < |attempts| ==> !attempts[j].outcome.Recognized? {
        assert forall j :: 0 <= j < |attempts| - 1 ==> attempts[1..][j] == attempts[j + 1];
      }
    }
  }

  /** Running out the attempts without a decision lets a later run continue from the state reached. */
  lemma {:induction false} ListenAppend(xs: seq<Attempt>, ys: seq<Attempt>, matches: string -> bool, st: Listener)
    requires Listen(xs, matches, st).0 == NotActivated
    ensures Listen(xs + ys, matches, st) == Listen(ys, matches, Listen(xs, matches, st).1)
  {
    if xs != [] {
      assert (xs + ys)[0] == xs[0];
      assert (xs + ys)[1..] == xs[1..] + ys;
      var a := xs[0];
      var st1 := st.(energy := a.ambient);
      var st2 := if a.outcome.Recognized? then st1.(lastHeard := Some(a.outcome.text)) else st1;
      ListenAppend(xs[1..], ys, matches, st2);
    } else {
      assert xs + ys == ys;
    }
  }

  /** A single attempt decides exactly when it is decisive, by its kind. */
  lemma ListenSingle(a: Attempt, matches: string -> bool, st: Listener)
    ensures Listen([a], matches, st).0 ==
              if !Decisive(a, matches) then NotActivated
              else if a.outcome.Recognized? then Activated else Cancelled
  {
    assert [a][1..] == [];
  }

  /** The first `n` attempts of an unbounded stream. */
  function Prefix(hear: nat -> Attempt, n: nat): (p: seq<Attempt>)
    ensures |p| == n && forall j :: 0 <= j < n ==> p[j] == hear(j)
  {
    seq(n, j requires 0 <= j => hear(j))
  }

  /** Listening to one more attempt of a stream continues from where the undecided prefix left off. */
  lemma ListenOneMore(hear: nat -> Attempt, i: nat, matches: string -> bool, st: Listener)
    requires Listen(Prefix(hear, i), matches, st).0 == NotActivated
    ensures Listen(Prefix(hear, i + 1), matches, st) ==
            Listen([hear(i)], matches, Listen(Prefix(hear, i), matches, st).1)
  {
    ListenAppend(Prefix(hear, i), [hear(i)], matches, st);
    assert Prefix(hear, i) + [hear(i)] == Prefix(hear, i + 1);
  }

  /**
   * Attempt `k` of the stream is the first decisive one, `activated` says
   * whether it was recognized text, and the listener ends as listening to
   * the first `k + 1` attempts from `st0` leaves it.
   */
  ghost predicate DecidedAt(hear: nat -> Attempt, k: nat, matches: string -> bool, activated: bool,
                            st: Listener, st0: Listener)
  {
    Decisive(hear(k), matches)
    && (forall j :: 0 <= j < k ==> !Decisive(hear(j), matches))
    && (activated <==> hear(k).outcome.Recognized?)
    && (if activated then Activated else Cancelled, st) == Listen(Prefix(hear, k + 1), matches, st0)
  }

  /** The voice activator; the microphone and recognizer are the attempts it is given. */
  class GuardActivator {
    const activationPhrase: string
    var energyThreshold: real
    var lastHeard: Option<string>

    function Current(): Listener
      reads this
    {
      Listener(energyThreshold, lastHeard)
    }

    /** Lower-cases the phrase and calibrates the threshold on the ambient energy measured at start. */
    constructor (phrase: string, ambient: real)
      ensures activationPhrase == Lower(phrase)
      ensures Current() == Listener(Calibrate(ambient), None)
    {
      activationPhrase := Lower(phrase);
      energyThreshold := InitialEnergy;
      lastHeard := None;
      new;
      energyThreshold := Calibrate(ambient);
    }

    /** `listen_for_activation` with `max_attempts == |attempts|`. */
    method ListenForActivation(attempts: seq<Attempt>, similarity: (string, string) -> real)
      returns (result: ListenResult)
      modifies this
      ensures (result, Current()) == Listen(attempts, Matcher(activationPhrase, similarity), old(Current()))
    {
      var i := 0;
      while i < |attempts|
        invariant 0 <= i <= |attempts|
        invariant Listen(attempts, Matcher(activationPhrase, similarity), old(Current())) ==
                  Listen(attempts[i..], Matcher(activationPhrase, similarity), Current())
      {
        var a := attempts[i];
        assert attempts[i..][0] == a && attempts[i..][1..] == attempts[i + 1..];
        energyThreshold := a.ambient;
        match a.outcome {
          case Interrupted =>
            return Cancelled;
          case Recognized(text) =>
            lastHeard := Some(text);
            if FuzzyMatch(activationPhrase, text, similarity, MatchThreshold) {
              return Activated;
            }
          case _ =>
        }
        i := i + 1;
      }
      result := NotActivated;
    }

    /**
     * `listen_for_activation_continuous`: one attempt at a time until one
     * matches (true) or the user interrupts (false). The stream is required
     * to hold a decisive attempt; otherwise the source listens forever.
     */
    method ListenContinuous(hear: nat -> Attempt, similarity: (string, string) -> real) returns (activated: bool)
      requires exists n :: Decisive(hear(n), Matcher(activationPhrase, similarity))
      modifies this
      ensures exists k: nat ::
                DecidedAt(hear, k, Matcher(activationPhrase, similarity), activated, Current(), old(Current()))
    {
      ghost var m := Matcher(activationPhrase, similarity);
      ghost var bound: nat :| Decisive(hear(bound), m);
      var i: nat := 0;
      while true
        invariant i <= bound
        invariant forall j :: 0 <= j < i ==> !Decisive(hear(j), m)
        invariant Listen(Prefix(hear, i), m, old(Current())) == (NotActivated, Current())
        decreases bound - i
      {
        ghost var before := Current();
        var r := ListenForActivation([hear(i)], similarity);
        ListenOneMore(hear, i, m, old(Current()));
        ListenSingle(hear(i), m, before);
        assert (r, Current()) == Listen(Prefix(hear, i + 1), m, old(Current()));
        if r != NotActivated {
          assert Decisive(hear(i), m) && (r == Activated <==> hear(i).outcome.Recognized?);
          activated := r == Activated;
          assert DecidedAt(hear, i, m, activated, Current(), old(Current()));
          return;
        }
        assert !Decisive(hear(i), m);
        i := i + 1;
      }
    }
  }
}
