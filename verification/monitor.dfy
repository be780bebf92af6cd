/**
 * The guard's monitoring loop. Its local variables form a LoopState; one
 * pass of the loop body is the function Tick from the state and what the
 * frame, the busy flags, the reply queue and the keyboard hold at that
 * moment, to the new state and the actions it issues on the speaker, the
 * siren, the conversation agent, the camera and the intruder database.
 * MonitorRoom runs the loop over a finite sequence of such moments.
 */
module Monitor {
  import opened Wrappers
  import opened Text
  import Config
  import Session
  import Conversation
  import Faces

  // ---- greeting trusted people ----

  /** Seconds during which a greeted name is not greeted again. */
  const GreetInterval: real := 60.0

  /** The greeting for the hour of day. */
  function Greeting(hour: int, name: string): string {
    if 5 <= hour < 12 then "Good morning, " + name + "!"
    else if 12 <= hour < 17 then "Good afternoon, " + name + "!"
    else if 17 <= hour < 21 then "Welcome back, " + name + "!"
    else "Working late, " + name + "?"
  }

  /** The greeting by hour: morning from 5, afternoon from 12, welcome back from 17, and late from 21 until 5. */
  lemma GreetingByHour(hour: int, name: string)
    ensures 5 <= hour < 12 ==> Greeting(hour, name) == "Good morning, " + name + "!"
    ensures 12 <= hour < 17 ==> Greeting(hour, name) == "Good afternoon, " + name + "!"
    ensures 17 <= hour < 21 ==> Greeting(hour, name) == "Welcome back, " + name + "!"
    ensures (hour < 5 || hour >= 21) ==> Greeting(hour, name) == "Working late, " + name + "?"
  {
  }

  /** Different names get different greetings. */
  lemma GreetingInjective(hour: int, a: string, b: string)
    requires Greeting(hour, a) == Greeting(hour, b)
    ensures a == b
  {
    var p := if 5 <= hour < 12 then "Good morning, " else if 12 <= hour < 17 then "Good afternoon, "
             else if 17 <= hour < 21 then "Welcome back, " else "Working late, ";
    var q := if 5 <= hour < 12 || 12 <= hour < 17 || 17 <= hour < 21 then "!" else "?";
    assert Greeting(hour, a) == p + a + q && Greeting(hour, b) == p + b + q;
    assert |a| == |b|;
    assert (p + a + q)[|p|..|p| + |a|] == a;
    assert (p + b + q)[|p|..|p| + |b|] == b;
  }

  /** A name is due for a greeting unless it was greeted less than a minute before `now`. */
  predicate Due(lastGreeted: map<string, real>, name: string, now: real) {
    !(name in lastGreeted && now - lastGreeted[name] < GreetInterval)
  }

  /**
   * `greet_known_person`: nothing when the name was greeted less than a
   * minute ago; otherwise the time is recorded and the greeting spoken.
   */
  function Greet(lastGreeted: map<string, real>, name: string, now: real, hour: int)
    : (r: (map<string, real>, Option<string>))
    ensures r.1.Some? <==> Due(lastGreeted, name, now)
    ensures r.1.Some? ==> r.1.value == Greeting(hour, name) && r.0 == lastGreeted[name := now]
    ensures r.1.None? ==> r.0 == lastGreeted
  {
    if name in lastGreeted && now - lastGreeted[name] < GreetInterval then (lastGreeted, None)
    else (lastGreeted[name := now], Some(Greeting(hour, name)))
  }

  /**
   * A name greeted at time t is not greeted again, and its time is not
   * refreshed, while less than a minute has passed; other names' entries
   * are never touched.
   */
  lemma GreetSuppressedWithinMinute(lastGreeted: map<string, real>, name: string, t: real, now: real,
                                    hour: int, hour2: int)
    requires now - t < GreetInterval
    ensures var first := Greet(lastGreeted, name, t, hour);
            first.1.Some? ==> Greet(first.0, name, now, hour2) == (first.0, None)
    ensures forall other :: other != name && other in lastGreeted ==>
              other in Greet(lastGreeted, name, t, hour).0 &&
              Greet(lastGreeted, name, t, hour).0[other] == lastGreeted[other]
    ensures name in Greet(lastGreeted, name, t, hour).0
  {
  }

  // ---- one pass of the loop ----

  /** A face seen in the frame, as the recognizer identified it. */
  datatype Face = Face(id: Faces.Identification, encoding: Faces.Encoding)

  /** Names the loop treats as an intruder. */
  predicate IsIntruderName(name: string) {
    name == Faces.UnknownName || name == Faces.RepeatIntruderName
  }

  predicate HasUnknown(faces: seq<Face>) {
    exists i :: 0 <= i < |faces| && IsIntruderName(faces[i].id.name)
  }

  predicate HasKnown(faces: seq<Face>) {
    exists i :: 0 <= i < |faces| && !IsIntruderName(faces[i].id.name)
  }

  /** The trusted names in frame order. */
  function KnownNames(faces: seq<Face>): (names: seq<string>)
    ensures |names| <= |faces|
    ensures forall k :: 0 <= k < |names| ==> !IsIntruderName(names[k])
  {
    if faces == [] then []
    else (if IsIntruderName(faces[0].id.name) then [] else [faces[0].id.name]) + KnownNames(faces[1..])
  }

  /** The names of the faces, in frame order. */
  function FaceNames(faces: seq<Face>): (names: seq<string>)
    ensures |names| == |faces| && forall k :: 0 <= k < |faces| ==> names[k] == faces[k].id.name
  {
    if faces == [] then [] else [faces[0].id.name] + FaceNames(faces[1..])
  }

  /**
   * The names taken from a frame are exactly the trusted names among its
   * faces: every trusted face's name is among them and each of them is
   * the name of a trusted face; there is one exactly when the frame has a
   * trusted face.
   */
  lemma {:induction false} KnownNamesExact(faces: seq<Face>)
    ensures forall k :: 0 <= k < |faces| && !IsIntruderName(faces[k].id.name) ==> faces[k].id.name in KnownNames(faces)
    ensures forall x :: x in KnownNames(faces) ==> x in FaceNames(faces)
    ensures KnownNames(faces) != [] <==> HasKnown(faces)
  {
    if faces != [] {
      var rest := faces[1..];
      KnownNamesExact(rest);
      var head := if IsIntruderName(faces[0].id.name) then [] else [faces[0].id.name];
      assert KnownNames(faces) == head + KnownNames(rest);
      assert FaceNames(faces) == [faces[0].id.name] + FaceNames(rest);
      forall k | 0 <= k < |faces| && !IsIntruderName(faces[k].id.name)
        ensures faces[k].id.name in KnownNames(faces)
      {
        if k > 0 {
          assert rest[k - 1] == faces[k];
        }
      }
      if HasKnown(rest) {
        var k :| 0 <= k < |rest| && !IsIntruderName(rest[k].id.name);
        assert faces[k + 1] == rest[k];
      }
      if HasKnown(faces) && !HasKnown(rest) {
        var k :| 0 <= k < |faces| && !IsIntruderName(faces[k].id.name);
        if k > 0 {
          assert rest[k - 1] == faces[k];
        }
      }
    }
  }

  datatype Key = NoKey | QuitKey | DeactivateKey | OtherKey

  /**
   * What one pass sees: whether the camera gave a frame, the clock, the
   * speaking and listening flags of the speech threads, the identified
   * faces, the hour of day, the replies the listening thread queued since
   * the previous pass, and the key pressed.
   */
  datatype TickInput = TickInput(frameReady: bool, now: real, speaking: bool, listening: bool,
                                 faces: seq<Face>, hour: int, arrivals: seq<Option<string>>, key: Key)

  /** Effects on the guard's collaborators. */
  datatype Action =
    | Speak(text: string)
    | SirenStart
    | SirenStop
    | StartTurn(reply: Option<string>)
    | SaveEvidence
    | AddIntruder(encoding: Faces.Encoding)

  /** The local variables of the loop together with the agent's level, the session flags, the greeting times and the reply queue. */
  datatype LoopState = LoopState(
    unknownCount: nat,
    consecutiveUnknown: nat,
    sirenActive: bool,
    framesSinceClear: nat,
    inConversation: bool,
    waitingForResponse: bool,
    intruderEncoding: Option<Faces.Encoding>,
    intruderAdded: bool,
    lastCheckTime: real,
    level: nat,
    session: Session.Flags,
    lastGreeted: map<string, real>,
    queue: seq<Option<string>>)

  /** The state at the start of `monitor_room`. */
  function Start(now: real, level: nat, session: Session.Flags, lastGreeted: map<string, real>,
                 queue: seq<Option<string>>): LoopState
  {
    LoopState(0, 0, false, 0, false, false, None, false, now, level, session, lastGreeted, queue)
  }

  /** Which passes run face recognition: the program as written, or with the siren reopening it. */
  datatype Gate = AsWritten | SirenAware

  const ClearFrames: nat := 30
  const LeftLine := "Intruder has left. Alarm Deactivated"
  const FinalWarningLine := "FINAL WARNING! AUTHORITIES NOTIFIED! ALARM ACTIVATED!"

  /** The welcome spoken to a trusted person when the alarm is called off. */
  function WelcomeLine(name: string): string {
    "Welcome " + name + "! Alarm deactivated."
  }

  /** One welcome per trusted name, in order. */
  function WelcomeLines(names: seq<string>): (acts: seq<Action>)
    ensures |acts| == |names| && forall k :: 0 <= k < |acts| ==> acts[k] == Speak(WelcomeLine(names[k]))
  {
    if names == [] then [] else [Speak(WelcomeLine(names[0]))] + WelcomeLines(names[1..])
  }

  /** How a face's intruder id is written: Python's `str(None)` when it has none. */
  function IdText(f: Face): string {
    match f.id.intruderId case Some(v) => v case None => "None"
  }

  /** The spoken alert for a repeat intruder. */
  function RepeatAlert(f: Face): Action {
    Speak("Alert! Known intruder " + IdText(f) + " detected!")
  }

  /** The spoken alerts for repeat intruders, in frame order. */
  function RepeatAlerts(faces: seq<Face>): (acts: seq<Action>)
    ensures forall k :: 0 <= k < |acts| ==> acts[k].Speak?
    ensures forall k :: 0 <= k < |faces| && faces[k].id.name == Faces.RepeatIntruderName ==> RepeatAlert(faces[k]) in acts
  {
    if faces == [] then []
    else
      var rest := RepeatAlerts(faces[1..]);
      assert forall k :: 1 <= k < |faces| ==> faces[1..][k - 1] == faces[k];
      (if faces[0].id.name == Faces.RepeatIntruderName then [RepeatAlert(faces[0])] else []) + rest
  }

  /** There is one alert per REPEAT_INTRUDER face: as many as that name occurs in the frame. */
  lemma {:induction false} RepeatAlertsCount(faces: seq<Face>)
    ensures |RepeatAlerts(faces)| == multiset(FaceNames(faces))[Faces.RepeatIntruderName]
  {
    if faces != [] {
      var rest := faces[1..];
      RepeatAlertsCount(rest);
      assert FaceNames(faces) == [faces[0].id.name] + FaceNames(rest);
    }
  }

  /** Each alert is that of a REPEAT_INTRUDER face of the frame. */
  lemma {:induction false} RepeatAlertsFromFaces(faces: seq<Face>)
    ensures forall a :: a in RepeatAlerts(faces) ==>
              exists k :: 0 <= k < |faces| && faces[k].id.name == Faces.RepeatIntruderName && a == RepeatAlert(faces[k])
  {
    if faces != [] {
      var rest := faces[1..];
      RepeatAlertsFromFaces(rest);
      var head := if faces[0].id.name == Faces.RepeatIntruderName then [RepeatAlert(faces[0])] else [];
      assert RepeatAlerts(faces) == head + RepeatAlerts(rest);
      forall a | a in RepeatAlerts(faces)
        ensures exists k :: 0 <= k < |faces| && faces[k].id.name == Faces.RepeatIntruderName && a == RepeatAlert(faces[k])
      {
        if a in head {
          assert faces[0].id.name == Faces.RepeatIntruderName && a == RepeatAlert(faces[0]);
        } else {
          var j :| 0 <= j < |rest| && rest[j].id.name == Faces.RepeatIntruderName && a == RepeatAlert(rest[j]);
          assert rest[j] == faces[j + 1];
        }
      }
    }
  }

  /** The encoding of the last unknown face, or `prev` when there is none. */
  function LastUnknownEncoding(faces: seq<Face>, prev: Option<Faces.Encoding>): (r: Option<Faces.Encoding>)
    ensures prev.Some? ==> r.Some?
  {
    if faces == [] then prev
    else LastUnknownEncoding(faces[1..], if faces[0].id.name == Faces.UnknownName then Some(faces[0].encoding) else prev)
  }

  /** The encoding kept is that of the last Unknown face. */
  lemma {:induction false} LastUnknownIsLast(faces: seq<Face>, prev: Option<Faces.Encoding>, k: nat)
    requires k < |faces| && faces[k].id.name == Faces.UnknownName
    requires forall j :: k < j < |faces| ==> faces[j].id.name != Faces.UnknownName
    ensures LastUnknownEncoding(faces, prev) == Some(faces[k].encoding)
  {
    var next := if faces[0].id.name == Faces.UnknownName then Some(faces[0].encoding) else prev;
    var rest := faces[1..];
    if k > 0 {
      forall j | k - 1 < j < |rest| ensures rest[j].id.name != Faces.UnknownName {
        assert rest[j] == faces[j + 1];
      }
      LastUnknownIsLast(rest, next, k - 1);
    } else {
      forall j | 0 <= j < |rest| ensures rest[j].id.name != Faces.UnknownName {
        assert rest[j] == faces[j + 1];
      }
      LastUnknownNone(rest, next);
    }
  }

  /** Without an Unknown face, the encoding held before is kept. */
  lemma {:induction false} LastUnknownNone(faces: seq<Face>, prev: Option<Faces.Encoding>)
    requires forall j :: 0 <= j < |faces| ==> faces[j].id.name != Faces.UnknownName
    ensures LastUnknownEncoding(faces, prev) == prev
  {
    if faces != [] {
      assert faces[0].id.name != Faces.UnknownName;
      forall j | 0 <= j < |faces[1..]| ensures faces[1..][j].id.name != Faces.UnknownName {
        assert faces[1..][j] == faces[j + 1];
      }
      LastUnknownNone(faces[1..], prev);
    }
  }

  /** Greets each trusted name in turn. */
  function GreetAll(lastGreeted: map<string, real>, names: seq<string>, now: real, hour: int)
    : (r: (map<string, real>, seq<Action>))
    ensures forall k :: 0 <= k < |r.1| ==> r.1[k].Speak?
    decreases |names|
  {
    if names == [] then (lastGreeted, [])
    else
      var g := Greet(lastGreeted, names[0], now, hour);
      var rest := GreetAll(g.0, names[1..], now, hour);
      (rest.0, (if g.1.Some? then [Speak(g.1.value)] else []) + rest.1)
  }
  /**
   * After greeting a list of names, each name that was due carries the time
   * now; every other recorded time is kept; and only those names are added.
   */
  lemma {:induction false} GreetAllTimes(lastGreeted: map<string, real>, names: seq<string>, now: real, hour: int)
    ensures var m := GreetAll(lastGreeted, names, now, hour).0;
            (forall n :: n in m <==> n in lastGreeted || n in names)
            && (forall n :: n in names && Due(lastGreeted, n, now) ==> n in m && m[n] == now)
            && (forall n :: n in lastGreeted && !(n in names && Due(lastGreeted, n, now)) ==>
                  n in m && m[n] == lastGreeted[n])
    decreases |names|
  {
    if names != [] {
      var first := names[0];
      var rest := names[1..];
      var g := Greet(lastGreeted, first, now, hour);
      GreetAllTimes(g.0, rest, now, hour);
      assert GreetAll(lastGreeted, names, now, hour).0 == GreetAll(g.0, rest, now, hour).0;
      assert first in g.0 && !Due(g.0, first, now);
      forall n | n != first
        ensures (n in g.0 <==> n in lastGreeted) && (n in g.0 ==> g.0[n] == lastGreeted[n])
        ensures Due(g.0, n, now) == Due(lastGreeted, n, now)
        ensures n in names <==> n in rest
      {
        assert n in names ==> names[0] == n || n in rest;
      }
    }
  }

  /**
   * Greeting a list of names speaks the greeting of every name that was
   * due, speaks only greetings of those names, and at most one per name.
   */
  lemma {:induction false} GreetAllSpeaks(lastGreeted: map<string, real>, names: seq<string>, now: real, hour: int)
    ensures var acts := GreetAll(lastGreeted, names, now, hour).1;
            |acts| <= |names|
            && (forall n :: n in names && Due(lastGreeted, n, now) ==> Speak(Greeting(hour, n)) in acts)
            && (forall a :: a in acts ==> exists n :: n in names && Due(lastGreeted, n, now) && a == Speak(Greeting(hour, n)))
    decreases |names|
  {
    if names != [] {
      var first := names[0];
      var rest := names[1..];
      var g := Greet(lastGreeted, first, now, hour);
      GreetAllSpeaks(g.0, rest, now, hour);
      var head := if g.1.Some? then [Speak(g.1.value)] else [];
      var tail := GreetAll(g.0, rest, now, hour).1;
      assert GreetAll(lastGreeted, names, now, hour).1 == head + tail;
      forall n | n in names && Due(lastGreeted, n, now)
        ensures Speak(Greeting(hour, n)) in head + tail
      {
        if n != first {
          assert n in rest && Due(g.0, n, now);
        }
      }
      forall a | a in head + tail
        ensures exists n :: n in names && Due(lastGreeted, n, now) && a == Speak(Greeting(hour, n))
      {
        if a in head {
          assert first in names && Due(lastGreeted, first, now) && a == Speak(Greeting(hour, first));
        } else {
          var n :| n in rest && Due(g.0, n, now) && a == Speak(Greeting(hour, n));
          assert n in names && n != first;
          assert Due(lastGreeted, n, now);
        }
      }
    }
  }

  /** A name listed twice is greeted once: no greeting is spoken twice. */
  lemma {:induction false} GreetAllOnce(lastGreeted: map<string, real>, names: seq<string>, now: real, hour: int)
    ensures var acts := GreetAll(lastGreeted, names, now, hour).1;
            forall i, j :: 0 <= i < j < |acts| ==> acts[i] != acts[j]
    decreases |names|
  {
    if names != [] {
      var first := names[0];
      var rest := names[1..];
      var g := Greet(lastGreeted, first, now, hour);
      GreetAllOnce(g.0, rest, now, hour);
      var tail := GreetAll(g.0, rest, now, hour).1;
      var acts := GreetAll(lastGreeted, names, now, hour).1;
      if g.1.Some? {
        GreetAllSpeaks(g.0, rest, now, hour);
        assert !Due(g.0, first, now);
        assert acts == [Speak(Greeting(hour, first))] + tail;
        forall j | 0 <= j < |tail| ensures tail[j] != Speak(Greeting(hour, first)) {
          assert tail[j] in tail;
          var n :| n in rest && Due(g.0, n, now) && tail[j] == Speak(Greeting(hour, n));
          if tail[j] == Speak(Greeting(hour, first)) {
            GreetingInjective(hour, n, first);
          }
        }
        forall i, j | 0 <= i < j < |acts| ensures acts[i] != acts[j] {
          assert acts[j] == tail[j - 1];
          if i > 0 {
            assert acts[i] == tail[i - 1];
          }
        }
      } else {
        assert acts == tail;
      }
    }
  }


  /** The state, actions and whether the rest of the pass is skipped (`continue`) after a stage. */
  datatype Phase = Phase(state: LoopState, actions: seq<Action>, skipRest: bool)

  /** Whether this pass runs face recognition. */
  predicate RecognitionDue(gate: Gate, s: LoopState, inp: TickInput) {
    (match gate
     case AsWritten => !s.inConversation
     case SirenAware => !s.inConversation || s.sirenActive)
    && !inp.speaking && !inp.listening
    && inp.now - s.lastCheckTime >= Config.FaceRecognitionInterval
  }

  /** The alarm is called off: siren, conversation, count and level reset. */
  function EndAlarm(s: LoopState): LoopState {
    s.(sirenActive := false, inConversation := false, waitingForResponse := false, unknownCount := 0,
       level := 0, session := Session.ConversationEnded(s.session))
  }

  /**
   * An unknown-only frame: counted once it has been seen on two consecutive
   * recognition passes; a counted sighting records the last unknown
   * encoding, announces repeat intruders, saves the frame, and at the
   * threshold starts the conversation with a turn that has no reply.
   */
  function UnknownSighting(s: LoopState, faces: seq<Face>): Phase {
    var c := s.consecutiveUnknown + 1;
    if c >= 2 then
      var u := s.unknownCount + 1;
      var s1 := s.(unknownCount := u, consecutiveUnknown := 0,
                   intruderEncoding := LastUnknownEncoding(faces, s.intruderEncoding));
      var alerts := RepeatAlerts(faces);
      if u >= Config.UnknownThreshold then
        Phase(s1.(session := Session.ConversationStarted(Session.IntruderDetected(s.session)),
                  inConversation := true, waitingForResponse := true),
              alerts + [SaveEvidence, StartTurn(None)], false)
      else Phase(s1, alerts + [SaveEvidence], false)
    else Phase(s.(consecutiveUnknown := c), [], false)
  }

  /** The face recognition stage of a pass. */
  function Recognition(s: LoopState, inp: TickInput): Phase {
    var faces := inp.faces;
    var hasUnknown := HasUnknown(faces);
    var hasKnown := HasKnown(faces);
    if s.sirenActive && hasKnown then
      Phase(EndAlarm(s), [SirenStop] + WelcomeLines(KnownNames(faces)), true)
    else if s.sirenActive && !hasUnknown && !hasKnown && s.framesSinceClear + 1 >= ClearFrames then
      Phase(EndAlarm(s).(framesSinceClear := 0), [SirenStop, Speak(LeftLine)], true)
    else
      var clear := if s.sirenActive && !hasUnknown && !hasKnown then s.framesSinceClear + 1 else 0;
      var greet := hasKnown && !s.sirenActive;
      var g := if greet then GreetAll(s.lastGreeted, KnownNames(faces), inp.now, inp.hour) else (s.lastGreeted, []);
      var s1 := s.(framesSinceClear := clear, lastGreeted := g.0);
      var s2 := if greet && s.unknownCount > 0 then s1.(unknownCount := 0, consecutiveUnknown := 0) else s1;
      var u := if hasUnknown && !hasKnown && !s.sirenActive then UnknownSighting(s2, faces)
               else Phase(s2.(consecutiveUnknown := 0), [], false);
      Phase(u.state.(lastCheckTime := inp.now), g.1 + u.actions, false)
  }

  /**
   * The reply stage: when the conversation waits and nobody is speaking or
   * listening, the oldest queued reply is taken. A non-empty one starts the
   * next turn with it; an empty one escalates, and at the maximum level the
   * siren starts, the intruder is stored once, and waiting ends.
   */
  function Reply(s: LoopState, inp: TickInput): Phase {
    if s.inConversation && s.waitingForResponse && !inp.speaking && !inp.listening && s.queue != [] then
      var r := s.queue[0];
      var s1 := s.(queue := s.queue[1..]);
      if IsPresent(r) then
        Phase(s1.(level := Conversation.LevelAfterInput(s1.level, r)), [StartTurn(r)], false)
      else
        var l := Conversation.Escalated(s1.level);
        if l >= Config.MaxEscalationLevel then
          var add := s1.intruderEncoding.Some? && !s1.intruderAdded;
          Phase(s1.(level := l, sirenActive := true, waitingForResponse := false,
                    intruderAdded := s1.intruderAdded || add),
                [Speak(FinalWarningLine), SirenStart] + (if add then [AddIntruder(s1.intruderEncoding.value)] else []),
                false)
        else Phase(s1.(level := l), [StartTurn(None)], false)
    else Phase(s, [], false)
  }

  /** The keyboard stage: `q` or `d` stops a sounding siren and leaves the loop. */
  function Keyboard(s: LoopState, inp: TickInput): (r: Phase)
    ensures r.state == s
    ensures r.skipRest <==> inp.key == QuitKey || inp.key == DeactivateKey
    ensures r.actions == (if r.skipRest && s.sirenActive then [SirenStop] else [])
  {
    if inp.key == QuitKey || inp.key == DeactivateKey then
      Phase(s, if s.sirenActive then [SirenStop] else [], true)
    else Phase(s, [], false)
  }

  /** One pass of the loop under a gate; `skipRest` of the result means the loop was left. */
  function TickWith(gate: Gate, s: LoopState, inp: TickInput): Phase {
    var s0 := s.(queue := s.queue + inp.arrivals);
    if !inp.frameReady then Phase(s0, [], false)
    else
      var rec := if RecognitionDue(gate, s0, inp) then Recognition(s0, inp) else Phase(s0, [], false);
      if rec.skipRest then Phase(rec.state, rec.actions, false)
      else
        var rep := Reply(rec.state, inp);
        var key := Keyboard(rep.state, inp);
        Phase(key.state, rec.actions + rep.actions + key.actions, key.skipRest)
  }

  /** One pass of the loop as the program is written. */
  function Tick(s: LoopState, inp: TickInput): Phase {
    TickWith(AsWritten, s, inp)
  }

  // ---- the status overlay ----

  /** The status line drawn on the frame. */
  function StatusText(s: LoopState, speaking: bool, listening: bool): string {
    var base := if s.sirenActive then "\U{1F6A8} SIREN ACTIVE \U{1F6A8}"
                else if s.inConversation then "ALERT-L" + Digits(s.level)
                else "MONITORING";
    base + (if speaking then " | SPEAKING" else "") + (if listening then " | LISTENING" else "")
  }

  /**
   * The status line for each state and pair of flags: the siren banner
   * while the siren sounds, otherwise the level during a conversation,
   * otherwise MONITORING; then " | SPEAKING" and " | LISTENING" in that
   * order for the flags that are set.
   */
  lemma StatusTextShape(s: LoopState, speaking: bool, listening: bool)
    ensures var base := StatusText(s, false, false);
            (s.sirenActive ==> base == "\U{1F6A8} SIREN ACTIVE \U{1F6A8}")
            && (!s.sirenActive && s.inConversation ==> base == "ALERT-L" + Digits(s.level))
            && (!s.sirenActive && !s.inConversation ==> base == "MONITORING")
            && StatusText(s, true, false) == base + " | SPEAKING"
            && StatusText(s, false, true) == base + " | LISTENING"
            && StatusText(s, true, true) == base + " | SPEAKING | LISTENING"
  {
  }

  // ---- what every pass keeps ----

  /**
   * The loop's invariant as the program is written: the guard stays active;
   * a conversation, once started, keeps the count at the threshold and the
   * session flags set; the siren sounds only at the maximum level with
   * waiting ended; the intruder is stored only once the siren sounds; and
   * outside a conversation the level is 0 and the count below the threshold.
   */
  predicate Inv(s: LoopState) {
    s.session.guardActive
    && s.framesSinceClear == 0
    && s.consecutiveUnknown <= 1
    && s.level <= Config.MaxEscalationLevel
    && s.waitingForResponse == (s.inConversation && !s.sirenActive)
    && (s.sirenActive ==> s.inConversation && s.level == Config.MaxEscalationLevel)
    && (s.intruderAdded ==> s.sirenActive)
    && (s.sirenActive && !s.intruderAdded ==> s.intruderEncoding.None?)
    && (s.inConversation ==> s.unknownCount == Config.UnknownThreshold)
    && (!s.inConversation ==> s.unknownCount < Config.UnknownThreshold && s.level == 0)
    && s.session.intruderDetected == s.inConversation
    && s.session.conversationActive == s.inConversation
  }

  /** The loop starts in a state satisfying the invariant once the guard is active and the agent fresh. */
  lemma StartInv(now: real, lastGreeted: map<string, real>, queue: seq<Option<string>>)
    ensures Inv(Start(now, 0, Session.GuardActivated(Session.Initial), lastGreeted, queue))
  {
  }

  /** Every pass keeps the invariant; in particular a conversation never ends and the siren never stops. */
  lemma TickPreservesInv(s: LoopState, inp: TickInput)
    requires Inv(s)
    ensures Inv(Tick(s, inp).state)
    ensures s.inConversation ==> Tick(s, inp).state.inConversation
    ensures s.sirenActive ==> Tick(s, inp).state.sirenActive
  {
    var s0 := s.(queue := s.queue + inp.arrivals);
    if inp.frameReady {
      if RecognitionDue(AsWritten, s0, inp) {
        RecognitionKeepsInv(s0, inp);
      }
      var rec := if RecognitionDue(AsWritten, s0, inp) then Recognition(s0, inp) else Phase(s0, [], false);
      ReplyKeepsInv(rec.state, inp);
    }
  }

  /** A counted or uncounted sighting outside a conversation keeps the invariant. */
  lemma UnknownSightingKeepsInv(s: LoopState, faces: seq<Face>)
    requires Inv(s) && !s.inConversation
    ensures Inv(UnknownSighting(s, faces).state) && !UnknownSighting(s, faces).state.sirenActive
  {
  }

  /** Recognition runs only outside a conversation, and there it keeps the invariant and the siren silent. */
  lemma RecognitionKeepsInv(s: LoopState, inp: TickInput)
    requires Inv(s) && !s.inConversation
    ensures Inv(Recognition(s, inp).state) && !Recognition(s, inp).state.sirenActive
    ensures !Recognition(s, inp).skipRest
  {
    var faces := inp.faces;
    var greet := HasKnown(faces);
    var g := if greet then GreetAll(s.lastGreeted, KnownNames(faces), inp.now, inp.hour) else (s.lastGreeted, []);
    var s1 := s.(framesSinceClear := 0, lastGreeted := g.0);
    var s2 := if greet && s.unknownCount > 0 then s1.(unknownCount := 0, consecutiveUnknown := 0) else s1;
    assert Inv(s2);
    if HasUnknown(faces) && !greet {
      UnknownSightingKeepsInv(s2, faces);
    }
  }

  /** The reply stage keeps the invariant, never ends a conversation and never stops the siren. */
  lemma ReplyKeepsInv(s: LoopState, inp: TickInput)
    requires Inv(s)
    ensures Inv(Reply(s, inp).state) && !Reply(s, inp).skipRest
    ensures s.inConversation ==> Reply(s, inp).state.inConversation
    ensures s.sirenActive ==> Reply(s, inp).state.sirenActive
  {
    if s.inConversation && s.waitingForResponse && !inp.speaking && !inp.listening && s.queue != [] {
      Conversation.LevelAfterInputBounded(s.level, s.queue[0]);
    }
  }

  /**
   * The reply stage touches only the queue, the level, the siren and the
   * intruder store: outside a conversation, or with nothing queued, it does
   * nothing at all.
   */
  lemma ReplyFrame(s: LoopState, inp: TickInput)
    ensures var r := Reply(s, inp);
            !r.skipRest
            && r.state.inConversation == s.inConversation
            && r.state.unknownCount == s.unknownCount && r.state.consecutiveUnknown == s.consecutiveUnknown
            && r.state.framesSinceClear == s.framesSinceClear && r.state.lastCheckTime == s.lastCheckTime
            && r.state.session == s.session
            && (!s.inConversation || s.queue == [] ==> r == Phase(s, [], false))
  {
  }

  // ---- the debounce counters ----

  /**
   * A recognition pass with only intruder faces counts a sighting on its
   * second consecutive pass: the count rises by exactly one and the run
   * restarts; on the first pass the run grows by one. A pass with a trusted
   * face zeroes both, even with intruders in view; an empty room keeps the
   * count and zeroes the run. Either way the check time becomes now.
   */
  lemma RecognitionDebounce(s: LoopState, inp: TickInput)
    requires Inv(s) && inp.frameReady && RecognitionDue(AsWritten, s, inp)
    ensures var t := Tick(s, inp).state;
            var unknownOnly := HasUnknown(inp.faces) && !HasKnown(inp.faces);
            (unknownOnly && s.consecutiveUnknown + 1 >= 2 ==>
               t.unknownCount == s.unknownCount + 1 && t.consecutiveUnknown == 0)
            && (unknownOnly && s.consecutiveUnknown + 1 < 2 ==>
               t.unknownCount == s.unknownCount && t.consecutiveUnknown == s.consecutiveUnknown + 1)
            && (!unknownOnly ==> t.consecutiveUnknown == 0)
            && (HasKnown(inp.faces) ==> t.unknownCount == 0)
            && (!HasUnknown(inp.faces) && !HasKnown(inp.faces) ==> t.unknownCount == s.unknownCount)
            && t.lastCheckTime == inp.now
  {
  }

  /**
   * A pass without a frame, or whose recognition is not due (in a
   * conversation, speaking, listening, or within the interval), leaves the
   * debounce counters and the check time as they were.
   */
  lemma ClosedGateKeepsCounters(s: LoopState, inp: TickInput)
    requires !inp.frameReady || !RecognitionDue(AsWritten, s, inp)
    ensures var t := Tick(s, inp).state;
            t.unknownCount == s.unknownCount && t.consecutiveUnknown == s.consecutiveUnknown
            && t.framesSinceClear == s.framesSinceClear && t.lastCheckTime == s.lastCheckTime
  {
    var s0 := s.(queue := s.queue + inp.arrivals);
    if inp.frameReady {
      assert !RecognitionDue(AsWritten, s0, inp);
      ReplyFrame(s0, inp);
    }
  }

  /** Number of turns started in a list of actions. */
  function Turns(acts: seq<Action>): (n: nat)
    ensures n <= |acts|
  {
    if acts == [] then 0 else (if acts[0].StartTurn? then 1 else 0) + Turns(acts[1..])
  }

  lemma {:induction false} TurnsAppend(a: seq<Action>, b: seq<Action>)
    ensures Turns(a + b) == Turns(a) + Turns(b)
  {
    if a == [] {
      assert a + b == b;
    } else {
      assert (a + b)[1..] == a[1..] + b;
      TurnsAppend(a[1..], b);
    }
  }

  lemma {:induction false} NoTurnsInSpeech(acts: seq<Action>)
    requires forall k :: 0 <= k < |acts| ==> acts[k].Speak?
    ensures Turns(acts) == 0
  {
    if acts != [] {
      NoTurnsInSpeech(acts[1..]);
    }
  }

  /**
   * The conversation starts only on the counted sighting that brings the
   * count to the threshold: it sets the conversation and waiting flags and
   * the session's intruder and conversation flags.
   */
  lemma ConversationStartsAtThreshold(s: LoopState, inp: TickInput)
    requires Inv(s) && !s.inConversation && Tick(s, inp).state.inConversation
    ensures var t := Tick(s, inp);
            inp.frameReady && RecognitionDue(AsWritten, s, inp)
            && HasUnknown(inp.faces) && !HasKnown(inp.faces) && s.consecutiveUnknown == 1
            && s.unknownCount + 1 == Config.UnknownThreshold
            && t.state.unknownCount >= Config.UnknownThreshold
            && t.state.waitingForResponse
            && t.state.session.intruderDetected && t.state.session.conversationActive
  {
    var s0 := s.(queue := s.queue + inp.arrivals);
    if inp.frameReady && RecognitionDue(AsWritten, s0, inp) {
      var rec := Recognition(s0, inp);
      ReplyFrame(rec.state, inp);
      RecognitionStarts(s0, inp);
    } else {
      ReplyFrame(s0, inp);
    }
  }

  /**
   * The pass that starts the conversation issues a turn without a reply,
   * and, with nothing queued, exactly one turn.
   */
  lemma ConversationStartTurn(s: LoopState, inp: TickInput)
    requires Inv(s) && !s.inConversation && Tick(s, inp).state.inConversation
    ensures StartTurn(None) in Tick(s, inp).actions
    ensures s.queue + inp.arrivals == [] ==> Turns(Tick(s, inp).actions) == 1
  {
    ConversationStartsAtThreshold(s, inp);
    var s0 := s.(queue := s.queue + inp.arrivals);
    RecognitionStarts(s0, inp);
    TickDue(AsWritten, s, inp);
    var rec := Recognition(s0, inp);
    var rep := Reply(rec.state, inp);
    var key := Keyboard(rep.state, inp);
    StartTurnActions(RepeatAlerts(inp.faces), rep.actions, key.actions);
    if s0.queue == [] {
      ReplyFrame(rec.state, inp);
    }
  }

  /** The alerts, the saved frame and the opening turn, followed by what the later stages issue. */
  lemma StartTurnActions(alerts: seq<Action>, later: seq<Action>, keys: seq<Action>)
    requires forall k :: 0 <= k < |alerts| ==> alerts[k].Speak?
    ensures StartTurn(None) in alerts + [SaveEvidence, StartTurn(None)] + later + keys
    ensures later == [] && keys == [] ==> Turns(alerts + [SaveEvidence, StartTurn(None)] + later + keys) == 1
  {
    var pair := [SaveEvidence, StartTurn(None)];
    assert (alerts + pair + later + keys)[|alerts| + 1] == StartTurn(None);
    if later == [] && keys == [] {
      assert alerts + pair + later + keys == alerts + pair;
      NoTurnsInSpeech(alerts);
      TurnsAppend(alerts, pair);
      assert pair[1..] == [StartTurn(None)] && pair[1..][1..] == [];
    }
  }

  /** A pass whose recognition stage runs and does not leave the pass is its three stages in order. */
  lemma TickDue(gate: Gate, s: LoopState, inp: TickInput)
    requires inp.frameReady && RecognitionDue(gate, s.(queue := s.queue + inp.arrivals), inp)
    requires !Recognition(s.(queue := s.queue + inp.arrivals), inp).skipRest
    ensures var rec := Recognition(s.(queue := s.queue + inp.arrivals), inp);
            var rep := Reply(rec.state, inp);
            var key := Keyboard(rep.state, inp);
            TickWith(gate, s, inp) == Phase(key.state, rec.actions + rep.actions + key.actions, key.skipRest)
  {
  }

  /**
   * A recognition pass outside a conversation starts one only on an
   * intruder-only frame that completes the threshold'th sighting; its
   * actions are then the repeat alerts, the saved frame and one turn.
   */
  lemma RecognitionStarts(s: LoopState, inp: TickInput)
    requires Inv(s) && !s.inConversation && Recognition(s, inp).state.inConversation
    ensures HasUnknown(inp.faces) && !HasKnown(inp.faces) && s.consecutiveUnknown == 1
            && s.unknownCount + 1 == Config.UnknownThreshold
    ensures var r := Recognition(s, inp);
            r.actions == RepeatAlerts(inp.faces) + [SaveEvidence, StartTurn(None)]
            && r.state.unknownCount == Config.UnknownThreshold && r.state.waitingForResponse
            && r.state.session.intruderDetected && r.state.session.conversationActive
            && !r.state.sirenActive && !r.skipRest && r.state.queue == s.queue
  {
    var faces := inp.faces;
    if HasUnknown(faces) && !HasKnown(faces) {
      var s2 := s.(framesSinceClear := 0, lastGreeted := s.lastGreeted);
      assert s2 == s;
      var u := UnknownSighting(s, faces);
      assert Recognition(s, inp).actions == [] + u.actions;
    }
  }

  // ---- replies ----

  /**
   * In a conversation, a reply is taken exactly when the guard waits,
   * nobody speaks or listens, and the queue holds one. A non-empty reply
   * starts a turn with it and changes the level only by the hostile-word
   * bump; an empty reply escalates, then starts the siren at the maximum
   * level and another turn below it.
   */
  lemma ReplyHandling(s: LoopState, inp: TickInput)
    requires Inv(s) && s.inConversation && inp.frameReady
    ensures var t := Tick(s, inp);
            var q := s.queue + inp.arrivals;
            var taken := s.waitingForResponse && !inp.speaking && !inp.listening && q != [];
            (taken ==> t.state.queue == q[1..]) && (!taken ==> t.state.queue == q)
            && (!taken ==> t.state.level == s.level && t.state.sirenActive == s.sirenActive && Turns(t.actions) == 0)
            && (taken && IsPresent(q[0]) ==>
                  t.state.level == Conversation.LevelAfterInput(s.level, q[0])
                  && StartTurn(q[0]) in t.actions && !t.state.sirenActive)
            && (taken && !IsPresent(q[0]) ==>
                  t.state.level == Conversation.Escalated(s.level)
                  && (t.state.sirenActive <==> Conversation.Escalated(s.level) == Config.MaxEscalationLevel)
                  && (t.state.sirenActive ==> SirenStart in t.actions && !t.state.waitingForResponse)
                  && (!t.state.sirenActive ==> StartTurn(None) in t.actions))
  {
    var s0 := s.(queue := s.queue + inp.arrivals);
    var rep := Reply(s0, inp);
    var key := Keyboard(rep.state, inp);
    assert Tick(s, inp).actions == [] + rep.actions + key.actions;
    if !(s.waitingForResponse && !inp.speaking && !inp.listening && s0.queue != []) {
      assert rep.actions == [];
      assert key.actions == [] || key.actions == [SirenStop];
      assert Turns([SirenStop]) == 0;
      TurnsAppend(rep.actions, key.actions);
    } else if IsPresent(s0.queue[0]) {
      assert rep.actions[0] == StartTurn(s0.queue[0]);
      assert ([] + rep.actions + key.actions)[0] == StartTurn(s0.queue[0]);
    } else if Conversation.Escalated(s.level) >= Config.MaxEscalationLevel {
      assert rep.actions[1] == SirenStart;
      assert ([] + rep.actions + key.actions)[1] == SirenStart;
    } else {
      assert rep.actions[0] == StartTurn(None);
      assert ([] + rep.actions + key.actions)[0] == StartTurn(None);
    }
  }

  // ---- the siren and the keyboard ----

  function CountSirenStarts(acts: seq<Action>): nat {
    if acts == [] then 0 else (if acts[0] == SirenStart then 1 else 0) + CountSirenStarts(acts[1..])
  }

  function CountAdds(acts: seq<Action>): nat {
    if acts == [] then 0 else (if acts[0].AddIntruder? then 1 else 0) + CountAdds(acts[1..])
  }

  lemma {:induction false} CountsAppend(a: seq<Action>, b: seq<Action>)
    ensures CountSirenStarts(a + b) == CountSirenStarts(a) + CountSirenStarts(b)
    ensures CountAdds(a + b) == CountAdds(a) + CountAdds(b)
  {
    if a == [] {
      assert a + b == b;
    } else {
      assert (a + b)[1..] == a[1..] + b;
      CountsAppend(a[1..], b);
    }
  }

  /** Speech, saved frames and turns: actions that touch neither the siren nor the intruder store. */
  predicate Quiet(a: Action) {
    a.Speak? || a.SaveEvidence? || a.StartTurn?
  }

  lemma {:induction false} NoCountsWhenQuiet(acts: seq<Action>)
    requires forall k :: 0 <= k < |acts| ==> Quiet(acts[k])
    ensures CountSirenStarts(acts) == 0 && CountAdds(acts) == 0 && SirenStop !in acts
  {
    if acts != [] {
      NoCountsWhenQuiet(acts[1..]);
    }
  }

  /**
   * Each pass starts the siren only when it was silent and then leaves it
   * sounding, and stores the intruder only when not yet stored: so the
   * number of starts (stores) is the change of the siren (stored) flag.
   * The siren is told to stop only by the `q` or `d` key.
   */
  lemma TickCounts(s: LoopState, inp: TickInput)
    requires Inv(s)
    ensures var t := Tick(s, inp);
            CountSirenStarts(t.actions) + (if s.sirenActive then 1 else 0) == (if t.state.sirenActive then 1 else 0)
            && CountAdds(t.actions) + (if s.intruderAdded then 1 else 0) == (if t.state.intruderAdded then 1 else 0)
            && (SirenStop in t.actions ==> inp.key == QuitKey || inp.key == DeactivateKey)
  {
    var s0 := s.(queue := s.queue + inp.arrivals);
    if inp.frameReady {
      var due := RecognitionDue(AsWritten, s0, inp);
      var rec := if due then Recognition(s0, inp) else Phase(s0, [], false);
      if due {
        RecognitionCounts(s0, inp);
      }
      assert !rec.skipRest && SirenStop !in rec.actions;
      assert CountSirenStarts(rec.actions) == 0 && CountAdds(rec.actions) == 0;
      assert rec.state.sirenActive == s.sirenActive && rec.state.intruderAdded == s.intruderAdded;
      assert rec.state.sirenActive ==> !rec.state.waitingForResponse;
      var rep := Reply(rec.state, inp);
      ReplyCounts(rec.state, inp);
      var key := Keyboard(rep.state, inp);
      assert key.state == rep.state && CountSirenStarts(key.actions) == 0 && CountAdds(key.actions) == 0;
      assert Tick(s, inp) == Phase(rep.state, rec.actions + rep.actions + key.actions, key.skipRest);
      CountsAppend(rec.actions, rep.actions);
      CountsAppend(rec.actions + rep.actions, key.actions);
      assert SirenStop in rec.actions + rep.actions + key.actions ==> SirenStop in key.actions;
    }
  }

  /** A sighting's actions are all quiet, and it leaves the siren and store flags. */
  lemma UnknownSightingQuiet(s: LoopState, faces: seq<Face>)
    ensures var u := UnknownSighting(s, faces);
            (forall k :: 0 <= k < |u.actions| ==> Quiet(u.actions[k]))
            && u.state.sirenActive == s.sirenActive && u.state.intruderAdded == s.intruderAdded
  {
  }

  /** A recognition pass with the siren silent neither starts, stops nor stores anything. */
  lemma RecognitionCounts(s: LoopState, inp: TickInput)
    requires !s.sirenActive
    ensures var r := Recognition(s, inp);
            CountSirenStarts(r.actions) == 0 && CountAdds(r.actions) == 0 && SirenStop !in r.actions
            && !r.state.sirenActive && r.state.intruderAdded == s.intruderAdded && !r.skipRest
  {
    var faces := inp.faces;
    var greet := HasKnown(faces);
    var g := if greet then GreetAll(s.lastGreeted, KnownNames(faces), inp.now, inp.hour) else (s.lastGreeted, []);
    var s1 := s.(framesSinceClear := 0, lastGreeted := g.0);
    var s2 := if greet && s.unknownCount > 0 then s1.(unknownCount := 0, consecutiveUnknown := 0) else s1;
    var u := if HasUnknown(faces) && !greet then UnknownSighting(s2, faces) else Phase(s2.(consecutiveUnknown := 0), [], false);
    UnknownSightingQuiet(s2, faces);
    var acts := g.1 + u.actions;
    assert Recognition(s, inp).actions == acts;
    assert forall k :: 0 <= k < |acts| ==> Quiet(acts[k]) by {
      forall k | 0 <= k < |acts| ensures Quiet(acts[k]) {
        if k >= |g.1| {
          assert acts[k] == u.actions[k - |g.1|];
        }
      }
    }
    NoCountsWhenQuiet(acts);
  }

  /** A reply stage starts the siren only from silence, and stores the intruder only when not yet stored. */
  lemma ReplyCounts(s: LoopState, inp: TickInput)
    requires s.sirenActive ==> !s.waitingForResponse
    requires s.intruderAdded ==> s.sirenActive
    ensures var r := Reply(s, inp);
            CountSirenStarts(r.actions) + (if s.sirenActive then 1 else 0) == (if r.state.sirenActive then 1 else 0)
            && CountAdds(r.actions) + (if s.intruderAdded then 1 else 0) == (if r.state.intruderAdded then 1 else 0)
            && SirenStop !in r.actions && !r.skipRest
  {
    var r := Reply(s, inp);
    if s.inConversation && s.waitingForResponse && !inp.speaking && !inp.listening && s.queue != []
       && !IsPresent(s.queue[0]) && Conversation.Escalated(s.level) >= Config.MaxEscalationLevel {
      var add := s.intruderEncoding.Some? && !s.intruderAdded;
      var tail: seq<Action> := if add then [AddIntruder(s.intruderEncoding.value)] else [];
      CountsAppend([Speak(FinalWarningLine), SirenStart], tail);
      assert [Speak(FinalWarningLine), SirenStart][1..] == [SirenStart];
      assert [SirenStart][1..] == [];
      if add {
        assert tail[1..] == [];
      }
    }
  }

  // ---- runs of the loop ----

  /** The outcome of a run: the last state, every action issued, and whether a key ended it. */
  datatype RunResult = RunResult(state: LoopState, actions: seq<Action>, quit: bool)

  /**
   * The loop over a finite sequence of passes while the guard is active,
   * leaving it early on `q` or `d`.
   */
  function Run(gate: Gate, s: LoopState, inputs: seq<TickInput>): RunResult
    decreases |inputs|
  {
    if inputs == [] || !s.session.guardActive then RunResult(s, [], false)
    else
      var t := TickWith(gate, s, inputs[0]);
      if t.skipRest then RunResult(t.state, t.actions, true)
      else
        var r := Run(gate, t.state, inputs[1..]);
        RunResult(r.state, t.actions + r.actions, r.quit)
  }

  /**
   * A run of the program as written keeps the invariant, starts the siren
   * at most once and stores the intruder at most once (`intruder_added` is
   * never reset), and tells the siren to stop only when a key ends the run.
   */
  lemma {:induction false} RunKeepsInv(s: LoopState, inputs: seq<TickInput>)
    requires Inv(s)
    ensures var r := Run(AsWritten, s, inputs);
            Inv(r.state)
            && CountSirenStarts(r.actions) + (if s.sirenActive then 1 else 0) == (if r.state.sirenActive then 1 else 0)
            && CountAdds(r.actions) + (if s.intruderAdded then 1 else 0) == (if r.state.intruderAdded then 1 else 0)
            && (s.inConversation ==> r.state.inConversation)
            && (SirenStop in r.actions ==> r.quit)
    decreases |inputs|
  {
    if inputs != [] {
      var t := Tick(s, inputs[0]);
      TickPreservesInv(s, inputs[0]);
      TickCounts(s, inputs[0]);
      if !t.skipRest {
        RunKeepsInv(t.state, inputs[1..]);
        var r := Run(AsWritten, t.state, inputs[1..]);
        CountsAppend(t.actions, r.actions);
        assert SirenStop !in t.actions;
      }
    }
  }

  /** A pass in which only intruders are seen, recognition is free to run, nothing is queued and no key is pressed. */
  predicate UnknownOnlyPass(inp: TickInput) {
    inp.frameReady && !inp.speaking && !inp.listening && HasUnknown(inp.faces) && !HasKnown(inp.faces)
    && inp.arrivals == [] && inp.key == NoKey
  }

  /** Each pass comes at least a recognition interval after the previous one, the first after `t0`. */
  predicate Spaced(t0: real, inputs: seq<TickInput>) {
    (inputs != [] ==> inputs[0].now - t0 >= Config.FaceRecognitionInterval)
    && forall i :: 0 < i < |inputs| ==> inputs[i].now - inputs[i - 1].now >= Config.FaceRecognitionInterval
  }

  /**
   * Unknown-only passes advance the debounce by one step each, counting
   * twice the sighting count plus the current run, and the conversation
   * has started exactly when that measure reaches six.
   */
  lemma {:induction false} UnknownPassesProgress(s: LoopState, inputs: seq<TickInput>)
    requires Inv(s) && !s.inConversation && s.queue == []
    requires 2 * s.unknownCount + s.consecutiveUnknown + |inputs| <= 2 * Config.UnknownThreshold
    requires forall i :: 0 <= i < |inputs| ==> UnknownOnlyPass(inputs[i])
    requires Spaced(s.lastCheckTime, inputs)
    ensures var r := Run(AsWritten, s, inputs);
            2 * r.state.unknownCount + r.state.consecutiveUnknown
              == 2 * s.unknownCount + s.consecutiveUnknown + |inputs|
            && (r.state.inConversation <==> 2 * s.unknownCount + s.consecutiveUnknown + |inputs| == 2 * Config.UnknownThreshold)
            && r.state.queue == [] && !r.quit
    decreases |inputs|
  {
    if inputs != [] {
      var inp := inputs[0];
      RecognitionDebounce(s, inp);
      TickPreservesInv(s, inp);
      var t := Tick(s, inp);
      assert t.state.queue == [] && !t.skipRest;
      assert t.state.lastCheckTime == inp.now;
      var rest := inputs[1..];
      assert forall i :: 0 <= i < |rest| ==> rest[i] == inputs[i + 1];
      if rest != [] {
        assert !t.state.inConversation;
        UnknownPassesProgress(t.state, rest);
      }
    }
  }

  /**
   * From a clear count, six consecutive unknown-only recognition passes
   * start the conversation, and fewer do not.
   */
  lemma SixUnknownPassesStartConversation(s: LoopState, inputs: seq<TickInput>, k: nat)
    requires Inv(s) && !s.inConversation && s.queue == [] && s.unknownCount == 0 && s.consecutiveUnknown == 0
    requires |inputs| == 6 && k < 6
    requires forall i :: 0 <= i < |inputs| ==> UnknownOnlyPass(inputs[i])
    requires Spaced(s.lastCheckTime, inputs)
    ensures Run(AsWritten, s, inputs).state.inConversation
    ensures !Run(AsWritten, s, inputs[..k]).state.inConversation
  {
    UnknownPassesProgress(s, inputs);
    var pre := inputs[..k];
    assert forall i :: 0 <= i < |pre| ==> pre[i] == inputs[i];
    UnknownPassesProgress(s, pre);
  }

  /** A pass in which exactly one empty reply arrives, nobody speaks or listens, and no key is pressed. */
  predicate EmptyReplyPass(inp: TickInput) {
    inp.frameReady && !inp.speaking && !inp.listening && |inp.arrivals| == 1 && !IsPresent(inp.arrivals[0])
    && inp.key == NoKey
  }

  /** Each empty reply raises the level by one, and the siren sounds exactly when the maximum is reached. */
  lemma {:induction false} EmptyRepliesEscalate(s: LoopState, inputs: seq<TickInput>)
    requires Inv(s) && s.inConversation && !s.sirenActive && s.queue == []
    requires s.level + |inputs| <= Config.MaxEscalationLevel
    requires forall i :: 0 <= i < |inputs| ==> EmptyReplyPass(inputs[i])
    ensures var r := Run(AsWritten, s, inputs);
            r.state.level == s.level + |inputs|
            && (r.state.sirenActive <==> inputs != [] && r.state.level == Config.MaxEscalationLevel)
            && r.state.queue == [] && !r.quit
    decreases |inputs|
  {
    if inputs != [] {
      var inp := inputs[0];
      ReplyHandling(s, inp);
      TickPreservesInv(s, inp);
      var t := Tick(s, inp);
      assert (s.queue + inp.arrivals)[1..] == [];
      var rest := inputs[1..];
      assert forall i :: 0 <= i < |rest| ==> rest[i] == inputs[i + 1];
      if rest != [] {
        EmptyRepliesEscalate(t.state, rest);
      }
    }
  }

  /** From level 0 the third empty reply starts the siren; fewer do not. */
  lemma ThirdEmptyReplyStartsSiren(s: LoopState, inputs: seq<TickInput>, k: nat)
    requires Inv(s) && s.inConversation && !s.sirenActive && s.queue == [] && s.level == 0
    requires |inputs| == 3 && k < 3
    requires forall i :: 0 <= i < |inputs| ==> EmptyReplyPass(inputs[i])
    ensures Run(AsWritten, s, inputs).state.sirenActive
    ensures !Run(AsWritten, s, inputs[..k]).state.sirenActive
  {
    EmptyRepliesEscalate(s, inputs);
    var pre := inputs[..k];
    assert forall i :: 0 <= i < |pre| ==> pre[i] == inputs[i];
    EmptyRepliesEscalate(s, pre);
  }

  /**
   * `monitor_room`: the loop over the passes, leaving early on `q` or `d`.
   * As written, it keeps the invariant and starts the siren and stores the
   * intruder at most once each.
   */
  method MonitorRoom(gate: Gate, init: LoopState, inputs: seq<TickInput>) returns (final: LoopState, actions: seq<Action>)
    ensures final == Run(gate, init, inputs).state && actions == Run(gate, init, inputs).actions
    ensures gate == AsWritten && Inv(init) && !init.sirenActive ==>
              Inv(final) && CountSirenStarts(actions) <= 1 && CountAdds(actions) <= 1
  {
    var s := init;
    var i := 0;
    var quit := false;
    actions := [];
    while i < |inputs| && !quit && s.session.guardActive
      invariant 0 <= i <= |inputs|
      invariant !quit ==> Run(gate, init, inputs) == Resume(actions, Run(gate, s, inputs[i..]))
      invariant quit ==> Run(gate, init, inputs) == RunResult(s, actions, true)
    {
      var t := TickWith(gate, s, inputs[i]);
      RunStep(gate, s, inputs[i..]);
      assert inputs[i..][0] == inputs[i] && inputs[i..][1..] == inputs[i + 1..];
      ResumeResume(actions, t.actions, Run(gate, t.state, inputs[i + 1..]));
      s := t.state;
      actions := actions + t.actions;
      i := i + 1;
      quit := t.skipRest;
    }
    if !quit {
      assert Run(gate, s, inputs[i..]) == RunResult(s, [], false);
      assert actions + [] == actions;
    }
    final := s;
    if gate == AsWritten && Inv(init) && !init.sirenActive {
      RunBounds(init, inputs);
    }
  }

  /** From a silent start, a run as written keeps the invariant and starts the siren and stores the intruder at most once each. */
  lemma RunBounds(init: LoopState, inputs: seq<TickInput>)
    requires Inv(init) && !init.sirenActive
    ensures var r := Run(AsWritten, init, inputs);
            Inv(r.state) && CountSirenStarts(r.actions) <= 1 && CountAdds(r.actions) <= 1
  {
    RunKeepsInv(init, inputs);
  }

  /** A run that continues after `actions` were issued. */
  function Resume(actions: seq<Action>, r: RunResult): RunResult {
    RunResult(r.state, actions + r.actions, r.quit)
  }

  lemma ResumeResume(a: seq<Action>, b: seq<Action>, r: RunResult)
    ensures Resume(a, Resume(b, r)) == Resume(a + b, r)
  {
    assert a + (b + r.actions) == (a + b) + r.actions;
  }

  /** One step of a run while the guard is active: the pass, then the rest of the run unless a key ended it. */
  lemma RunStep(gate: Gate, s: LoopState, inputs: seq<TickInput>)
    requires inputs != [] && s.session.guardActive
    ensures var t := TickWith(gate, s, inputs[0]);
            Run(gate, s, inputs) == if t.skipRest then RunResult(t.state, t.actions, true)
                                    else Resume(t.actions, Run(gate, t.state, inputs[1..]))
  {
  }

  /** The guard object's greeting memory, updated in place. */
  class RoomGuard {
    var lastGreeted: map<string, real>

    constructor ()
      ensures lastGreeted == map[]
    {
      lastGreeted := map[];
    }

    /** `greet_known_person`: returns the greeting to speak, if any. */
    method GreetKnownPerson(name: string, now: real, hour: int) returns (greeting: Option<string>)
      modifies this
      ensures (lastGreeted, greeting) == Greet(old(lastGreeted), name, now, hour)
    {
      if name in lastGreeted && now - lastGreeted[name] < GreetInterval {
        return None;
      }
      lastGreeted := lastGreeted[name := now];
      greeting := Some(Greeting(hour, name));
    }
  }

  // ---- the siren-stop branches ----

  /**
   * As written, a sounding siren is never stopped by a trusted face: the
   * recognition stage that would stop it is skipped during a conversation,
   * and the siren only sounds in one.
   */
  lemma TrustedFaceIgnoredBySiren(s: LoopState, inp: TickInput)
    requires Inv(s) && s.sirenActive && HasKnown(inp.faces) && inp.key == NoKey
    ensures Tick(s, inp).state.sirenActive && SirenStop !in Tick(s, inp).actions
  {
    TickPreservesInv(s, inp);
    TickCounts(s, inp);
  }

  /**
   * As written, an empty room never stops a sounding siren either: the
   * empty-frame count that would stop it after thirty frames is never
   * advanced during a conversation.
   */
  lemma EmptyRoomIgnoredBySiren(s: LoopState, inp: TickInput)
    requires Inv(s) && s.sirenActive && inp.faces == [] && inp.key == NoKey
    ensures Tick(s, inp).state.sirenActive && SirenStop !in Tick(s, inp).actions
    ensures Tick(s, inp).state.framesSinceClear == 0
  {
    TickPreservesInv(s, inp);
    TickCounts(s, inp);
  }

  /**
   * With recognition reopened while the siren sounds, a due recognition
   * pass that sees a trusted face stops the siren, ends the conversation,
   * resets the agent and welcomes the trusted people.
   */
  lemma TrustedFaceStopsSiren(s: LoopState, inp: TickInput)
    requires s.sirenActive && HasKnown(inp.faces)
    requires inp.frameReady && !inp.speaking && !inp.listening
    requires inp.now - s.lastCheckTime >= Config.FaceRecognitionInterval
    ensures var t := TickWith(SirenAware, s, inp);
            !t.state.sirenActive && !t.state.inConversation && !t.state.waitingForResponse
            && t.state.level == 0 && t.state.unknownCount == 0 && !t.state.session.conversationActive
            && t.actions == [SirenStop] + WelcomeLines(KnownNames(inp.faces)) && !t.skipRest
  {
  }

  /**
   * With recognition reopened while the siren sounds, the due pass that
   * completes thirty empty-room frames stops the siren, announces that the
   * intruder left, ends the conversation, resets the agent and the count,
   * and restarts the empty-frame count.
   */
  lemma EmptyRoomStopsSiren(s: LoopState, inp: TickInput)
    requires s.sirenActive && s.framesSinceClear == ClearFrames - 1 && inp.faces == []
    requires inp.frameReady && !inp.speaking && !inp.listening
    requires inp.now - s.lastCheckTime >= Config.FaceRecognitionInterval
    ensures var t := TickWith(SirenAware, s, inp);
            !t.state.sirenActive && !t.state.inConversation && !t.state.waitingForResponse
            && t.state.level == 0 && t.state.unknownCount == 0 && t.state.framesSinceClear == 0
            && !t.state.session.conversationActive && !t.state.session.intruderDetected
            && t.actions == [SirenStop, Speak(LeftLine)] && !t.skipRest
  {
    assert !HasUnknown(inp.faces) && !HasKnown(inp.faces);
  }

  /**
   * With recognition reopened, an empty room before the thirtieth frame
   * only counts the frame: the siren keeps sounding.
   */
  lemma EmptyRoomCountsFrames(s: LoopState, inp: TickInput)
    requires s.sirenActive && s.framesSinceClear + 1 < ClearFrames && inp.faces == []
    requires inp.frameReady && !inp.speaking && !inp.listening
    requires inp.now - s.lastCheckTime >= Config.FaceRecognitionInterval
    ensures var rec := Recognition(s.(queue := s.queue + inp.arrivals), inp);
            rec.state.sirenActive && rec.state.framesSinceClear == s.framesSinceClear + 1
            && rec.actions == [] && !rec.skipRest
  {
    assert !HasUnknown(inp.faces) && !HasKnown(inp.faces);
  }
}
