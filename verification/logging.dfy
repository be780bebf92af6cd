/**
 * The performance log: an append-only list of typed records, and the
 * statistics computed from it by filtering on the record type. Timestamps
 * come from the clock and are not part of the model.
 */
module Logging {
  import opened Wrappers

  datatype LogRecord =
    | Activation(phrase: Option<string>, success: bool, activationConfidence: Option<real>)
    | Recognition(name: string, confidence: real, correct: Option<bool>)
    | ConversationTurn(level: int, guardResponse: string, intruderInput: Option<string>)
  {
    /** The record's "type" entry. */
    function Type(): RecordType {
      match this
      case Activation(_, _, _) => ActivationType
      case Recognition(_, _, _) => RecognitionType
      case ConversationTurn(_, _, _) => ConversationType
    }
  }

  /** The values of a record's "type" entry: "activation", "face_recognition" and "conversation". */
  datatype RecordType = ActivationType | RecognitionType | ConversationType

  /** The records of one type, in log order. */
  function OfType(logs: seq<LogRecord>, t: RecordType): (r: seq<LogRecord>)
    ensures |r| <= |logs|
    ensures forall k :: 0 <= k < |r| ==> r[k].Type() == t
  {
    if logs == [] then []
    else (if logs[0].Type() == t then [logs[0]] else []) + OfType(logs[1..], t)
  }

  /** Filtering distributes over appending one record. */
  lemma {:induction false} OfTypeAppend(logs: seq<LogRecord>, rec: LogRecord, t: RecordType)
    ensures OfType(logs + [rec], t) == OfType(logs, t) + (if rec.Type() == t then [rec] else [])
  {
    if logs == [] {
      assert logs + [rec] == [rec];
    } else {
      var head := if logs[0].Type() == t then [logs[0]] else [];
      var tail := if rec.Type() == t then [rec] else [];
      assert (logs + [rec])[0] == logs[0];
      assert (logs + [rec])[1..] == logs[1..] + [rec];
      OfTypeAppend(logs[1..], rec, t);
      calc {
        OfType(logs + [rec], t);
        head + OfType(logs[1..] + [rec], t);
        head + (OfType(logs[1..], t) + tail);
        (head + OfType(logs[1..], t)) + tail;
        OfType(logs, t) + tail;
      }
    }
  }

  /** The filter of a non-empty log holds its first record when that has the type, then the rest's. */
  lemma OfTypeHead(logs: seq<LogRecord>, t: RecordType)
    requires logs != []
    ensures logs[0].Type() == t ==> multiset(OfType(logs, t)) == multiset{logs[0]} + multiset(OfType(logs[1..], t))
    ensures logs[0].Type() != t ==> OfType(logs, t) == OfType(logs[1..], t)
  {
    if logs[0].Type() == t {
      assert OfType(logs, t) == [logs[0]] + OfType(logs[1..], t);
    }
  }

  /** The three type filters partition the log: every record lands in exactly one of them. */
  lemma {:induction false} OfTypePartition(logs: seq<LogRecord>)
    ensures multiset(logs) == multiset(OfType(logs, ActivationType)) + multiset(OfType(logs, RecognitionType))
                              + multiset(OfType(logs, ConversationType))
  {
    if logs != [] {
      var rest := logs[1..];
      OfTypePartition(rest);
      assert logs == [logs[0]] + rest;
      assert multiset(logs) == multiset{logs[0]} + multiset(rest);
      OfTypeHead(logs, ActivationType);
      OfTypeHead(logs, RecognitionType);
      OfTypeHead(logs, ConversationType);
    }
  }

  /** Hence the three filters' lengths add up to the log's length. */
  lemma OfTypeCounts(logs: seq<LogRecord>)
    ensures |logs| == |OfType(logs, ActivationType)| + |OfType(logs, RecognitionType)|
                      + |OfType(logs, ConversationType)|
  {
    OfTypePartition(logs);
    assert |multiset(logs)| == |logs|;
  }

  /** Number of successful activation records. */
  function Successes(logs: seq<LogRecord>): (n: nat)
    ensures n <= |OfType(logs, ActivationType)|
  {
    if logs == [] then 0
    else (if logs[0].Activation? && logs[0].success then 1 else 0) + Successes(logs[1..])
  }

  /** Logging one more record adds one success exactly when it is a successful activation. */
  lemma {:induction false} SuccessesAppend(logs: seq<LogRecord>, rec: LogRecord)
    ensures Successes(logs + [rec]) == Successes(logs) + (if rec.Activation? && rec.success then 1 else 0)
  {
    if logs == [] {
      assert logs + [rec] == [rec];
      assert [rec][1..] == [];
    } else {
      assert (logs + [rec])[0] == logs[0];
      assert (logs + [rec])[1..] == logs[1..] + [rec];
      SuccessesAppend(logs[1..], rec);
    }
  }

  /** Only activation records can be successes, so counting them among the activations loses none. */
  lemma {:induction false} SuccessesOfActivations(logs: seq<LogRecord>)
    ensures Successes(OfType(logs, ActivationType)) == Successes(logs)
  {
    if logs != [] {
      SuccessesOfActivations(logs[1..]);
      var rest := OfType(logs[1..], ActivationType);
      if logs[0].Activation? {
        assert OfType(logs, ActivationType) == [logs[0]] + rest;
        assert ([logs[0]] + rest)[1..] == rest;
      } else {
        assert OfType(logs, ActivationType) == [] + rest == rest;
      }
    }
  }

  /** Sum of the recognition confidences. */
  function ConfidenceSum(logs: seq<LogRecord>): real {
    if logs == [] then 0.0
    else (if logs[0].Recognition? then logs[0].confidence else 0.0) + ConfidenceSum(logs[1..])
  }

  /** The escalation levels of the conversation records. */
  function Levels(logs: seq<LogRecord>): set<int> {
    if logs == [] then {}
    else (if logs[0].ConversationTurn? then {logs[0].level} else {}) + Levels(logs[1..])
  }

  lemma {:induction false} LevelsAppend(a: seq<LogRecord>, b: seq<LogRecord>)
    ensures Levels(a + b) == Levels(a) + Levels(b)
  {
    if a == [] {
      assert a + b == b;
    } else {
      assert (a + b)[0] == a[0] && (a + b)[1..] == a[1..] + b;
      LevelsAppend(a[1..], b);
    }
  }

  /** A level is in the set exactly when some conversation record carries it. */
  lemma {:induction false} LevelsMeaning(logs: seq<LogRecord>, l: int)
    ensures l in Levels(logs) <==> exists k :: 0 <= k < |logs| && logs[k].ConversationTurn? && logs[k].level == l
  {
    if logs != [] {
      LevelsMeaning(logs[1..], l);
      if exists k :: 1 <= k < |logs| && logs[k].ConversationTurn? && logs[k].level == l {
        var k :| 1 <= k < |logs| && logs[k].ConversationTurn? && logs[k].level == l;
        assert logs[1..][k - 1] == logs[k];
      }
      if exists k :: 0 <= k < |logs[1..]| && logs[1..][k].ConversationTurn? && logs[1..][k].level == l {
        var k :| 0 <= k < |logs[1..]| && logs[1..][k].ConversationTurn? && logs[1..][k].level == l;
        assert logs[k + 1] == logs[1..][k];
      }
    }
  }

  /** What `print_stats` reports; each entry is absent when its record type is. */
  datatype Stats = Stats(successRate: Option<real>, averageConfidence: Option<real>,
                         turns: Option<nat>, levels: Option<set<int>>)

  /**
   * The success rate is the successes of the whole log over its activation
   * records, in percent; the average is the whole log's confidence sum over
   * its recognition records; the turns are its conversation records and the
   * levels every level they carry.
   */
  function ComputeStats(logs: seq<LogRecord>): (r: Stats)
    ensures r.levels.Some? <==> r.turns.Some?
    ensures r.turns.Some? ==> r.turns.value > 0 && r.turns.value <= |logs|
    ensures r.successRate.Some? <==> OfType(logs, ActivationType) != []
    ensures r.averageConfidence.Some? <==> OfType(logs, RecognitionType) != []
    ensures r.turns.Some? <==> OfType(logs, ConversationType) != []
    ensures r.successRate.Some? ==>
              r.successRate.value == Successes(logs) as real / |OfType(logs, ActivationType)| as real * 100.0
    ensures r.averageConfidence.Some? ==>
              r.averageConfidence.value == ConfidenceSum(logs) / |OfType(logs, RecognitionType)| as real
    ensures r.turns.Some? ==> r.turns.value == |OfType(logs, ConversationType)|
    ensures r.levels.Some? ==> r.levels.value == Levels(logs)
  {
    var activations := OfType(logs, ActivationType);
    var recognitions := OfType(logs, RecognitionType);
    var conversations := OfType(logs, ConversationType);
    SuccessesOfActivations(logs);
    ConfidenceSumOfRecognitions(logs);
    LevelsOfConversations(logs);
    Stats(
      if activations != [] then Some(Successes(activations) as real / |activations| as real * 100.0) else None,
      if recognitions != [] then Some(ConfidenceSum(recognitions) / |recognitions| as real) else None,
      if conversations != [] then Some(|conversations|) else None,
      if conversations != [] then Some(Levels(conversations)) else None)
  }

  /** A type's filter is non-empty exactly when some record has that type. */
  lemma {:induction false} OfTypeNonEmpty(logs: seq<LogRecord>, t: RecordType)
    ensures OfType(logs, t) != [] <==> exists k :: 0 <= k < |logs| && logs[k].Type() == t
  {
    if logs != [] {
      var rest := logs[1..];
      if logs[0].Type() == t {
        assert OfType(logs, t)[0] == logs[0];
      } else {
        OfTypeNonEmpty(rest, t);
        assert OfType(logs, t) == OfType(rest, t);
        if exists k :: 0 <= k < |logs| && logs[k].Type() == t {
          var k :| 0 <= k < |logs| && logs[k].Type() == t;
          assert rest[k - 1] == logs[k];
        }
        if exists k :: 0 <= k < |rest| && rest[k].Type() == t {
          var k :| 0 <= k < |rest| && rest[k].Type() == t;
          assert logs[k + 1] == rest[k];
        }
      }
    }
  }

  /** Filtering on the conversation type keeps every level. */
  lemma {:induction false} LevelsOfConversations(logs: seq<LogRecord>)
    ensures Levels(OfType(logs, ConversationType)) == Levels(logs)
  {
    if logs != [] {
      LevelsOfConversations(logs[1..]);
      var rest := OfType(logs[1..], ConversationType);
      if logs[0].ConversationTurn? {
        assert OfType(logs, ConversationType) == [logs[0]] + rest;
        LevelsAppend([logs[0]], rest);
        assert [logs[0]][1..] == [];
        assert Levels([logs[0]]) == {logs[0].level};
      } else {
        assert OfType(logs, ConversationType) == [] + rest == rest;
      }
    }
  }

  /** The success rate is reported exactly when there is an activation record, and lies in 0..100. */
  lemma SuccessRateReported(logs: seq<LogRecord>)
    ensures ComputeStats(logs).successRate.Some? <==> exists k :: 0 <= k < |logs| && logs[k].Activation?
    ensures ComputeStats(logs).successRate.Some? ==> 0.0 <= ComputeStats(logs).successRate.value <= 100.0
  {
    OfTypeNonEmpty(logs, ActivationType);
    var activations := OfType(logs, ActivationType);
    if activations != [] {
      Percentage(Successes(activations) as real, |activations| as real);
    }
  }

  /**
   * The turn count and level set are reported exactly when there is a
   * conversation record; the level set is the set of levels those records carry.
   */
  lemma ConversationStatsReported(logs: seq<LogRecord>)
    ensures ComputeStats(logs).turns.Some? <==> exists k :: 0 <= k < |logs| && logs[k].ConversationTurn?
    ensures ComputeStats(logs).levels.Some? <==> ComputeStats(logs).turns.Some?
    ensures ComputeStats(logs).levels.Some? ==> ComputeStats(logs).levels.value == Levels(logs)
  {
    var c := OfType(logs, ConversationType);
    OfTypeNonEmpty(logs, ConversationType);
    LevelsOfConversations(logs);
    forall k | 0 <= k < |logs| ensures logs[k].Type() == ConversationType <==> logs[k].ConversationTurn? {
    }
    assert ComputeStats(logs).turns == (if c != [] then Some(|c|) else None);
    assert ComputeStats(logs).levels == (if c != [] then Some(Levels(c)) else None);
  }

  /** A share of a positive whole lies in 0..1, and as a percentage in 0..100. */
  lemma Percentage(n: real, d: real)
    requires 0.0 <= n <= d && d > 0.0
    ensures 0.0 <= n / d <= 1.0
    ensures 0.0 <= n / d * 100.0 <= 100.0
  {
    assert n / d <= 1.0 by {
      assert n / d * d == n;
    }
  }

  /** Only recognition records carry a confidence, so summing over them loses none. */
  lemma {:induction false} ConfidenceSumOfRecognitions(logs: seq<LogRecord>)
    ensures ConfidenceSum(OfType(logs, RecognitionType)) == ConfidenceSum(logs)
  {
    if logs != [] {
      ConfidenceSumOfRecognitions(logs[1..]);
      var rest := OfType(logs[1..], RecognitionType);
      if logs[0].Recognition? {
        assert OfType(logs, RecognitionType) == [logs[0]] + rest;
        assert ([logs[0]] + rest)[1..] == rest;
      } else {
        assert OfType(logs, RecognitionType) == [] + rest == rest;
      }
    }
  }

  /** With every confidence in 0..1, their sum lies between 0 and the number of recognition records. */
  lemma {:induction false} ConfidenceSumBounded(logs: seq<LogRecord>)
    requires forall k :: 0 <= k < |logs| && logs[k].Recognition? ==> 0.0 <= logs[k].confidence <= 1.0
    ensures 0.0 <= ConfidenceSum(logs) <= |OfType(logs, RecognitionType)| as real
    ensures ConfidenceSum(OfType(logs, RecognitionType)) == ConfidenceSum(logs)
  {
    if logs != [] {
      assert forall k :: 0 <= k < |logs[1..]| ==> logs[1..][k] == logs[k + 1];
      ConfidenceSumBounded(logs[1..]);
      var rest := OfType(logs[1..], RecognitionType);
      if logs[0].Recognition? {
        assert OfType(logs, RecognitionType) == [logs[0]] + rest;
        assert ([logs[0]] + rest)[1..] == rest;
      } else {
        assert OfType(logs, RecognitionType) == [] + rest == rest;
      }
    }
  }

  /**
   * The average confidence is reported exactly when there is a recognition
   * record; with every confidence in 0..1 it lies in 0..1.
   */
  lemma AverageConfidenceReported(logs: seq<LogRecord>)
    ensures ComputeStats(logs).averageConfidence.Some? <==> exists k :: 0 <= k < |logs| && logs[k].Recognition?
    ensures (forall k :: 0 <= k < |logs| && logs[k].Recognition? ==> 0.0 <= logs[k].confidence <= 1.0) &&
            ComputeStats(logs).averageConfidence.Some? ==>
              0.0 <= ComputeStats(logs).averageConfidence.value <= 1.0
  {
    OfTypeNonEmpty(logs, RecognitionType);
    var recognitions := OfType(logs, RecognitionType);
    if (forall k :: 0 <= k < |logs| && logs[k].Recognition? ==> 0.0 <= logs[k].confidence <= 1.0) &&
       recognitions != [] {
      ConfidenceSumBounded(logs);
      Percentage(ConfidenceSum(recognitions), |recognitions| as real);
    }
  }

  /** The append-only logger. */
  class PerformanceLogger {
    const logFile: string
    var logs: seq<LogRecord>

    constructor (logFile: string)
      ensures this.logFile == logFile && logs == []
    {
      this.logFile := logFile;
      logs := [];
    }

    method LogActivation(phraseHeard: Option<string>, success: bool, confidence: Option<real>)
      modifies this
      ensures logs == old(logs) + [Activation(phraseHeard, success, confidence)]
    {
      logs := logs + [Activation(phraseHeard, success, confidence)];
    }

    method LogRecognition(name: string, confidence: real, correct: Option<bool>)
      modifies this
      ensures logs == old(logs) + [Recognition(name, confidence, correct)]
    {
      logs := logs + [Recognition(name, confidence, correct)];
    }

    method LogConversation(level: int, guardResponse: string, intruderInput: Option<string>)
      modifies this
      ensures logs == old(logs) + [ConversationTurn(level, guardResponse, intruderInput)]
    {
      logs := logs + [ConversationTurn(level, guardResponse, intruderInput)];
    }
  }

  /**
   * "Total Conversation Turns" counts `log_conversation` calls: a
   * conversation record adds one turn and its level, any other record
   * leaves both alone.
   */
  lemma TurnsCountConversationCalls(logs: seq<LogRecord>, rec: LogRecord)
    ensures rec.ConversationTurn? ==>
              |OfType(logs + [rec], ConversationType)| == |OfType(logs, ConversationType)| + 1
              && Levels(OfType(logs + [rec], ConversationType)) == Levels(OfType(logs, ConversationType)) + {rec.level}
    ensures !rec.ConversationTurn? ==> OfType(logs + [rec], ConversationType) == OfType(logs, ConversationType)
  {
    OfTypeAppend(logs, rec, ConversationType);
    var c := OfType(logs, ConversationType);
    if rec.ConversationTurn? {
      LevelsAppend(c, [rec]);
      assert [rec][1..] == [];
    }
  }

  /** Hence a conversation record adds one turn and its level to the reported statistics. */
  lemma TurnsReportedAfterCall(logs: seq<LogRecord>, level: int, response: string, input: Option<string>)
    ensures ComputeStats(logs + [ConversationTurn(level, response, input)]).turns
              == Some(|OfType(logs, ConversationType)| + 1)
    ensures ComputeStats(logs + [ConversationTurn(level, response, input)]).levels
              == Some(Levels(logs) + {level})
  {
    var rec := ConversationTurn(level, response, input);
    TurnsCountConversationCalls(logs, rec);
    LevelsAppend(logs, [rec]);
    assert [rec][1..] == [];
    assert Levels([rec]) == {level};
  }
}
