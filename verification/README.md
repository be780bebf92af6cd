# AI Room Guard — a Dafny model of its decision core

AI Room Guard watches a room through a camera. A spoken phrase ("guard my room") arms it. It greets the trusted people it recognises. It counts confirmed sightings of unknown faces, and after three it starts a spoken conversation with the intruder, driven by a language model and escalating from "who are you?" to a police warning. When a silence brings the escalation to the top level, it sounds a siren and stores the intruder's face so that a later visit is announced as a repeat intruder.

This project models the decision logic of that system in Dafny and proves properties about it. One module corresponds to each source file:

| module | models |
|---|---|
| `Session` | the session flags of the state manager |
| `Conversation` | the agent's escalation level, the cleanup of the model's raw text, the fallback lines |
| `Faces` | loading the trusted gallery, identifying a face, numbering new intruders |
| `Activation` | the fuzzy activation-phrase matcher and the listening retry loop |
| `Siren` | the volume clamp and the start/stop/is-playing protocol |
| `Logging` | the performance log and the statistics printed from it |
| `Monitor` | one pass of the monitoring loop, the loop itself, greetings and the status line |
| `Config` | the constants the decision logic reads |
| `Text`, `Wrappers` | the string operations the source relies on, and `Option` |

Objects that the source updates in place are classes with those fields. Each method is proved equal to a pure function of the old state, and the properties are proved about those functions. The classes are `StateManager`, `ConversationAgent`, `FaceRecognizer`, `GuardActivator`, `EmergencySiren`, `PerformanceLogger`, and `RoomGuard` (the greeting memory).

`monitor_room` is modelled as follows:

- Its local variables, together with the agent's level, the session flags, the greeting times and the reply queue, form a `LoopState`.
- One pass of the loop is the function `Tick`. It maps a state and a `TickInput` to a new state and the `Action`s the pass issues: speech, siren start/stop, a conversation turn, saving evidence, storing the intruder. A `TickInput` holds the frame, the clock, the speaking/listening flags, the identified faces, the hour, the newly queued replies and the key.
- `MonitorRoom` is the loop as a method, proved equal to the fold `Run`.

Everything the code cannot compute for itself is an explicit parameter:

- the language model (a function from prompt to optional raw text);
- the string-similarity ratio;
- the face-distance function;
- the recognizer's result for each listening attempt;
- the ambient noise level;
- the identified faces in a frame;
- the clock and the hour.

## Model

| member | source | states |
|---|---|---|
| Text.Lower | guard_activator.py:11 | lower-casing keeps the length and maps each character to its lower-case form |
| Text.Strip | conversation_agent.py:70 | the stripped text neither starts nor ends with whitespace |
| Text.StripPiece | conversation_agent.py:70 | the stripped text is one contiguous piece of the input, and everything of the input before and after that piece is whitespace |
| Text.StripTrimmed | conversation_agent.py:70 | text without whitespace at its ends, and with single spaces only, is its own strip |
| Text.RemoveChar | conversation_agent.py:71 | removing a character leaves no occurrence of it and exactly as many of every other character as the input has; text without the character comes back unchanged |
| Text.RemoveCharAppend | conversation_agent.py:71 | removing a character from a concatenation is removing it from each part, so the kept characters stay in order |
| Text.RemoveCharSwap | conversation_agent.py:71 | removing two characters gives the same text in either order |
| Text.RemoveDoubleStars | conversation_agent.py:71 | the result holds no two consecutive stars, only characters of the input, and keeps a first character that is not a star (RemoveDoubleStarsOrder, RemoveDoubleStarsStars and RemoveDoubleStarsRun fix the result) |
| Text.RemoveDoubleStarsKeeps | conversation_agent.py:71 | every character other than the star keeps its number of occurrences, and text without two consecutive stars comes back unchanged |
| Text.RemoveDoubleStarsOrder | conversation_agent.py:71 | removing pairs of stars drops only stars: the other characters stay, in order |
| Text.RemoveDoubleStarsStars | conversation_agent.py:71 | a run of k stars alone leaves one star when k is odd and none when k is even |
| Text.RemoveDoubleStarsRun | conversation_agent.py:71 | a run of k stars before another character leaves k mod 2 stars, keeps that character, and the rest is cleaned on its own; with RemoveDoubleStarsStars this fixes the result for every text |
| Text.Words | conversation_agent.py:72 | splitting on whitespace gives non-empty words without whitespace whose concatenation is exactly the input's non-whitespace characters in order (WordsOfWord and WordsSplit fix where the words start and end) |
| Text.WordsOfWord | conversation_agent.py:72 | text without whitespace is one word |
| Text.WordsSplit | conversation_agent.py:72 | a whitespace character separates words: the words of the text around it are the words before it followed by the words after it |
| Text.WordsJoin | conversation_agent.py:72 | splitting words joined by single spaces gives back exactly those words |
| Text.NonSpaceAppend | conversation_agent.py:72 | the non-whitespace characters of a concatenation are those of each part, in order |
| Text.NonSpaceMembers | conversation_agent.py:72 | a non-whitespace character occurs among the non-whitespace characters exactly when it occurs in the text |
| Text.NonSpaceRemoveChar | conversation_agent.py:71-72 | removing a non-whitespace character and dropping whitespace commute |
| Text.NonSpaceStrip | conversation_agent.py:70 | stripping drops only whitespace |
| Text.NonSpaceJoin | conversation_agent.py:72 | joining words with spaces adds only whitespace: the non-whitespace characters of the joined text are the words concatenated |
| Text.JoinWordsTrimmed | conversation_agent.py:72 | joining words with single spaces gives text without leading, trailing or repeated spaces, non-empty when a word is given |
| Text.CollapseWhitespace | conversation_agent.py:72 | the collapsed text has single spaces only and none at either end, has exactly the words of the input, in order, and the same non-whitespace characters |
| Text.CollapseTrimmed | conversation_agent.py:72 | text that already has single spaces only and none at its ends is split and joined back into itself |
| Text.NoDoubleStarSlice | conversation_agent.py:71-75 | a piece of text without two consecutive stars has none either |
| Text.NoDoubleStarJoin | conversation_agent.py:72-75 | joining two such texts with a space, or ending one with a full stop, brings no two stars together |
| Text.WordsNoDoubleStar | conversation_agent.py:72 | the words of text without two consecutive stars have none |
| Text.JoinNoDoubleStar | conversation_agent.py:72 | joining words without two consecutive stars by spaces makes none |
| Text.CollapseNoDoubleStar | conversation_agent.py:72 | collapsing whitespace never brings two stars together |
| Text.BeforeFirst | conversation_agent.py:74-75 | the text before the first occurrence of a character is a prefix without it, followed in the input by that character; the whole input when the character is absent |
| Text.BeforeFirstAt | conversation_agent.py:75 | in a text made of a part without the separator, the separator and a rest, the part before the first separator is that part |
| Text.BeforeFirstSplit | conversation_agent.py:75 | text holding the separator is the part before its first occurrence, the separator and the rest |
| Text.LastOccurrenceSpec | face_recognizer.py:48-50 | the position found holds the separator and no later position up to the start bound does; -1 when none does |
| Text.BeforeLastSpec | face_recognizer.py:48-50 | the text before the last occurrence of a separator is a prefix followed by the separator, with no later occurrence; the whole input when the separator is absent |
| Text.BeforeLastAt | face_recognizer.py:48-50 | when the separator occurs at a position and nowhere after it, the text before the last occurrence is the input up to that position |
| Text.DigitsRoundTrip | face_recognizer.py:136 | the decimal digits of a number read back as that number |
| Text.Digits | face_recognizer.py:136 | the decimal numeral of a number is a non-empty digit string, starting with 0 only for 0 itself, and one digit long exactly below 10 |
| Text.LeadingDigitPositive | face_recognizer.py:136 | a digit string whose first digit is not 0 has a positive value |
| Text.DigitsCanonical | face_recognizer.py:136 | a digit string without leading zeros is the numeral of its value, so the numeral of a number is unique |
| Text.DigitsWidth | face_recognizer.py:136 | a number's numeral has at most k digits exactly when the number is below 10^k |
| Text.LeadingZerosValue | face_recognizer.py:136 | leading zeros do not change the value of a digit string |
| Text.ZeroPad | face_recognizer.py:136 | a number padded to a width is a digit string exactly as wide as the width or as the number's decimal numeral, whichever is more, and its value is the number |
| Session.GuardActivated | state_manager.py:14-15 | activating sets `guard_active` and keeps the other two flags |
| Session.GuardDeactivated | state_manager.py:18-21 | deactivating clears all three flags, whatever they were |
| Session.IntruderDetected | state_manager.py:24-25 | detecting sets `intruder_detected` and keeps the other two flags |
| Session.ConversationStarted | state_manager.py:28-29 | starting sets `conversation_active` and keeps the other two flags |
| Session.ConversationEnded | state_manager.py:32-34 | ending clears `conversation_active` and `intruder_detected` and keeps `guard_active` |
| Session.EpisodeEnds | state_manager.py:24-34 | detecting, starting and then ending a conversation leaves `guard_active` as it was and both other flags cleared, as ending alone would |
| Session.OperationsIdempotent | state_manager.py:14-35 | applying any state-manager operation twice is the same as applying it once |
| Session.StateManager.constructor | state_manager.py:8-11 | a new manager has all three flags false |
| Session.StateManager.ActivateGuard | state_manager.py:14-15 | the flags become `GuardActivated` of the old flags |
| Session.StateManager.DeactivateGuard | state_manager.py:18-21 | the flags become `GuardDeactivated` of the old flags (all false) |
| Session.StateManager.DetectIntruder | state_manager.py:24-25 | the flags become `IntruderDetected` of the old flags |
| Session.StateManager.StartConversation | state_manager.py:28-29 | the flags become `ConversationStarted` of the old flags |
| Session.StateManager.EndConversation | state_manager.py:32-34 | the flags become `ConversationEnded` of the old flags |
| Conversation.IsHostile | conversation_agent.py:32-34 | a hostile word occurs in the lower-cased input (LevelAfterInput and LevelAfterInputBounded state its effect on the level) |
| Conversation.Escalated | conversation_agent.py:103-106 | escalating raises the level by at most one, and leaves it unchanged exactly at or above the maximum 3 |
| Conversation.EscalatedExact | conversation_agent.py:103-106 | below the maximum, escalate adds exactly one; at the maximum it does nothing; the level never exceeds 3 |
| Conversation.LevelAfterInput | conversation_agent.py:29-36 | from a level within 0..3 the level after an input stays within 0..3 and never decreases, and it changes only on present hostile input |
| Conversation.LevelAfterInputBounded | conversation_agent.py:29-36 | hostile input (a hostile word in the lower-cased input) raises the level to min(level+1, 3); absent, empty or civil input leaves it unchanged; the level stays in 0..3 and never decreases |
| Conversation.Prompt | conversation_agent.py:58-62 | the prompt starts with the level's instruction and ends with "\nYour response:"; it contains the intruder's words when there are any, and is exactly the instruction and that cue otherwise |
| Conversation.CutAtFullStop | conversation_agent.py:74-75 | cutting collapsed text without double quotes or two consecutive stars after its first full stop keeps all three properties, adds no trailing space, and leaves that stop as its only and last full stop |
| Conversation.Normalize | conversation_agent.py:70-75 | the cleaned text has no double quote, no two consecutive stars, no whitespace but single spaces between words (none at either end), and a full stop only as its last character (NormalizeContent states which characters it keeps) |
| Conversation.NormalizeContent | conversation_agent.py:70-75 | the cleaned text keeps exactly the raw text's characters other than whitespace, double quotes and stars, in order, up to and including the first full stop; all of them when there is no full stop |
| Conversation.KeptAppend | conversation_agent.py:70-75 | the characters kept from a concatenation are those kept from each part |
| Conversation.KeptMembers | conversation_agent.py:70-75 | a character other than whitespace, a double quote or a star is kept exactly when it occurs |
| Conversation.KeptBeforeCut | conversation_agent.py:70-72 | stripping, removing quotes and double stars, and collapsing whitespace keep the kept characters, in order |
| Conversation.KeptCut | conversation_agent.py:74-75 | cutting after the first full stop keeps the kept characters up to and including that stop |
| Conversation.ShapeReply | conversation_agent.py:70-77 | no reply exactly when the cleaned text has at most 5 characters; otherwise the reply is the cleaned text's prefix of exactly min(120, its length) characters and keeps its properties (no double quote, no two consecutive stars, single spaces, a full stop only last) |
| Conversation.NormalizeClean | conversation_agent.py:70-75 | text that is already clean (single spaces only and none at the ends, no double quote, no two consecutive stars, a full stop only at the end) comes back unchanged |
| Conversation.NormalizeIdempotent | conversation_agent.py:70-75 | cleaned text is clean, so cleaning twice is cleaning once |
| Conversation.ShapeReplyClean | conversation_agent.py:70-77 | a clean text of 6 to 120 characters is taken as the reply unchanged |
| Conversation.QueryLlm | conversation_agent.py:49-80 | no reply when the model call fails; otherwise no reply exactly when the cleaned text has at most 5 characters; a reply has 6 to 120 characters, no double quote and no two consecutive stars (ShapeReply and NormalizeContent give its text) |
| Conversation.Fallback | conversation_agent.py:82-101 | every fallback line is non-empty and fits the 120-character reply limit (FallbackChoice states which line is chosen) |
| Conversation.FallbackChoice | conversation_agent.py:82-101 | without input the level's silent line; with input at level 0 the friend line when "friend" occurs (checked before "lost"), the lost line when only "lost" does, and the who-are-you line when neither does; fixed lines at levels 1 and 2; the police line from level 3 |
| Conversation.Respond | conversation_agent.py:39-47 | the guard always says something, at most 120 characters long |
| Conversation.ConversationAgent.constructor | conversation_agent.py:10-13 | a new agent is at level 0 and keeps its model name |
| Conversation.ConversationAgent.GetResponse | conversation_agent.py:27-47 | the level becomes the hostile-bumped level; the response is the reply (or fallback) at the new level, non-empty and at most 120 characters |
| Conversation.ConversationAgent.Escalate | conversation_agent.py:103-106 | the level becomes `Escalated` of the old level, and a level within bounds stays within bounds |
| Conversation.ConversationAgent.Reset | conversation_agent.py:108-109 | the level becomes 0 |
| Faces.NameFromFilename | face_recognizer.py:47-50 | the extracted name is a prefix of the file name |
| Faces.NameFromSampleName | face_recognizer.py:47-50 | for a name without '_' or '.', "name_sample_tail" yields exactly the name |
| Faces.NameFromSampleFile | face_recognizer.py:47 | "Jatin Gupta_sample_1.jpg" yields "Jatin Gupta" |
| Faces.LoadTrusted | face_recognizer.py:36-59 | the gallery has as many names as encodings, and at most one entry per file |
| Faces.AddFile | face_recognizer.py:39-53 | a file adds one entry, its first encoding and its extracted name at the end, exactly when it is an image file with a face; otherwise the gallery is unchanged |
| Faces.LoadTrustedStep | face_recognizer.py:38-53 | loading one more file of the listing is adding that file to the gallery loaded so far |
| Faces.ArgMin | face_recognizer.py:103-108 | the index of the smallest distance, and the first one among equal minima |
| Faces.Distances | face_recognizer.py:100 | one distance per stored encoding, in order |
| Faces.BestMatch | face_recognizer.py:99-112 | no match exactly when no encoding is accepted (distance below tolerance and confidence at least 0.55); otherwise the first closest encoding, which is accepted |
| Faces.IdentifyFace | face_recognizer.py:95-132 | a face with an intruder id is named REPEAT_INTRUDER and its id is one of the database's ids; a face without one carries a trusted name or "Unknown" |
| Faces.TrustedMatchFirst | face_recognizer.py:99-112 | when any trusted encoding is accepted, the face gets the name of the first closest trusted encoding and no intruder id, whatever the intruder database holds |
| Faces.IntruderOrUnknown | face_recognizer.py:118-132 | without a trusted match, an accepted intruder encoding gives REPEAT_INTRUDER with the id of the first closest one; with no accepted encoding at all the face is Unknown |
| Faces.IntruderId | face_recognizer.py:136 | the id of the n-th intruder (IntruderIdRoundTrip, IntruderIdFirst, IntruderIdWidth and IntruderIdInjective state its properties) |
| Faces.IntruderIdRoundTrip | face_recognizer.py:136 | an intruder id is "INTRUDER_" followed by at least three digits, and those digits read back as the intruder's number |
| Faces.IntruderIdFirst | face_recognizer.py:136 | the first intruder stored is called "INTRUDER_001" |
| Faces.IntruderIdWidth | face_recognizer.py:136 | below 1000 the number in an id takes exactly three characters; from 1000 on the id is "INTRUDER_" followed by the number's own numeral, without padding |
| Faces.IntruderIdInjective | face_recognizer.py:136 | different numbers give different ids |
| Faces.WellNumberedDistinct | face_recognizer.py:134-149 | ids numbered 1, 2, … in order are pairwise distinct |
| Faces.FaceRecognizer.constructor | face_recognizer.py:14-34 | the gallery is the loaded trusted files; the intruder lists are the stored database, or empty when there is none |
| Faces.FaceRecognizer.LoadTrustedFaces | face_recognizer.py:36-59 | appends exactly the loadable files' encodings and names, in order, and leaves the intruder lists alone |
| Faces.FaceRecognizer.Identify | face_recognizer.py:95-132 | against the recognizer's current lists, an intruder id is one of its stored ids with the name REPEAT_INTRUDER, and a face without one carries one of its trusted names or "Unknown" |
| Faces.FaceRecognizer.RecognizeFaces | face_recognizer.py:82-93 | one identification per face found, in the order found, each being that of the face's encoding |
| Faces.FaceRecognizer.AddIntruder | face_recognizer.py:134-149 | returns INTRUDER_ plus the new count padded to three digits; appends one encoding and one id; leaves the gallery alone; keeps the ids numbered 1, 2, … |
| Activation.AlternativeKeywords | guard_activator.py:22-34 | every listed misrecognition contains a guard-like word and a room-like word |
| Activation.FuzzyMatch | guard_activator.py:48-76 | heard text matches when an alternative occurs in it, its similarity to the phrase reaches the threshold, or it holds a guard-like and a room-like word (FuzzyMatchByKeywords and PhraseActivates state its properties) |
| Activation.FuzzyMatchByKeywords | guard_activator.py:48-76 | the heard text matches exactly when its similarity to the phrase reaches the threshold, or it holds a guard-like word and a room-like word |
| Activation.PhraseActivates | guard_activator.py:50-56 | heard text containing "guard my room", in any case and whatever surrounds it, always matches |
| Activation.Calibrate | guard_activator.py:36-44 | the calibrated threshold lies in 150..800: the measured level when that lies in 150..800, 200 below it and 400 above it |
| Activation.Listen | guard_activator.py:78-119 | the listening loop over the attempts it gets (ListenDecidedByFirst and ListenLastHeard state its properties) |
| Activation.ListenDecidedByFirst | guard_activator.py:78-119 | the first decisive attempt decides: a match activates and an interrupt cancels; with no decisive attempt the result is "not activated"; the threshold is the ambient level of the last attempt made |
| Activation.ListenSkips | guard_activator.py:81-117 | an attempt that neither matches nor is an interrupt hands the listening on to the next attempt with the threshold it measured and the text it heard |
| Activation.ListenNoDecisive | guard_activator.py:78-119 | with no matching text and no interrupt among the attempts, the listening ends not activated |
| Activation.ListenFirstDecisive | guard_activator.py:78-119 | the first matching text activates and the first interrupt cancels, whichever comes first, and the threshold is that attempt's ambient level |
| Activation.ListenLastEnergy | guard_activator.py:89 | a listening that ends without activation took its threshold from the last attempt made |
| Activation.ListenLastHeard | guard_activator.py:97-98 | the remembered text changes only on recognized attempts; on activation it is the text that matched |
| Activation.ListenSingle | guard_activator.py:81-113 | one attempt activates when it is matching recognized text, cancels when it is an interrupt, and otherwise decides nothing |
| Activation.ListenOneMore | guard_activator.py:130-133 | listening to the first i+1 attempts of a stream continues from the state the undecided first i left |
| Activation.ListenAppend | guard_activator.py:130-133 | attempts that end without a decision let later attempts continue from the state reached |
| Activation.Prefix | guard_activator.py:130-133 | the first n attempts of an unbounded stream, in order |
| Activation.GuardActivator.constructor | guard_activator.py:10-44 | the phrase is stored lower-cased and the threshold is the calibrated ambient level |
| Activation.GuardActivator.ListenForActivation | guard_activator.py:78-119 | the result and the new threshold and remembered text are those of `Listen` over the attempts |
| Activation.GuardActivator.ListenContinuous | guard_activator.py:121-136 | returns at the first decisive attempt: true exactly when it is a match, with the state `Listen` reaches over the attempts up to it |
| Siren.ClampVolume | siren.py:24 | the volume lies in 0..1, is unchanged inside that range, 0 below it and 1 above it |
| Siren.Started | siren.py:197-207 | after start the siren plays; start while playing changes nothing; from silence it clears the stop request and launches a thread |
| Siren.Stopped | siren.py:209-219 | after stop the siren is silent and no thread is launched; stop while silent changes nothing; stopping a playing siren requests its thread to stop |
| Siren.PlaybackEnded | siren.py:186-195 | when the playing loop ends the siren is marked silent and nothing else changes |
| Siren.StartStopProtocol | siren.py:197-219 | start and stop are idempotent; start while playing and stop while silent do nothing; after start the siren plays, with a fresh playing thread when it was silent; after stop it is silent; a start followed by a stop requests the thread to stop |
| Siren.EmergencySiren.constructor | siren.py:17-40 | the volume is clamped; a new siren is idle |
| Siren.EmergencySiren.Start | siren.py:197-207 | the state becomes `Started` of the old state |
| Siren.EmergencySiren.Stop | siren.py:209-219 | the state becomes `Stopped` of the old state |
| Siren.EmergencySiren.IsPlaying | siren.py:221-223 | reports whether the siren plays |
| Siren.EmergencySiren.FinishPlayback | siren.py:186-195 | when the playing thread ends, the siren is marked silent |
| Logging.OfType | logger.py:46-48 | the filtered records all have the requested type, and are no more than the whole log |
| Logging.OfTypeAppend | logger.py:46-48 | filtering a log extended by one record adds that record exactly when it has the type |
| Logging.OfTypeHead | logger.py:46-48 | the filter of a log holds its first record exactly when that record has the type, followed by the filter of the rest |
| Logging.OfTypePartition | logger.py:46-48 | the three filters split the log: together they hold every record exactly once |
| Logging.OfTypeCounts | logger.py:46-48 | the sizes of the three filters add up to the size of the log |
| Logging.Successes | logger.py:55 | the number of successes is at most the number of activation records |
| Logging.SuccessesAppend | logger.py:13-20 | logging one more record adds one success exactly when it is a successful activation |
| Logging.SuccessesOfActivations | logger.py:46-55 | counting successes among the activation records gives the same number as counting them in the whole log |
| Logging.LevelsAppend | logger.py:64-65 | the levels of a concatenation are the union of the levels |
| Logging.LevelsMeaning | logger.py:64-65 | a level is reported exactly when some conversation record carries it |
| Logging.ComputeStats | logger.py:45-67 | each statistic is reported exactly when a record of its type exists; the success rate is the log's successes over its activation records times 100, the average is the log's confidence sum over its recognition records, the turn count is the number of conversation records (positive, at most the log's length), and the level set holds every level they carry |
| Logging.ConfidenceSumOfRecognitions | logger.py:47-59 | summing confidences over the recognition records gives the sum over the whole log |
| Logging.OfTypeNonEmpty | logger.py:54-62 | a filter is non-empty exactly when some record has that type |
| Logging.LevelsOfConversations | logger.py:62-65 | the levels of the conversation records are the levels of the whole log |
| Logging.SuccessRateReported | logger.py:54-56 | a success rate is reported exactly when some activation was logged, and it lies in 0..100 |
| Logging.ConversationStatsReported | logger.py:62-65 | the turn count and the level set are reported together, exactly when some conversation was logged, and the set holds every logged level |
| Logging.Percentage | logger.py:55 | a part over a positive whole is a fraction in 0..1 and a percentage in 0..100 |
| Logging.ConfidenceSumBounded | logger.py:59 | with confidences in 0..1, the sum lies between 0 and the number of recognitions, and only recognition records contribute to it |
| Logging.AverageConfidenceReported | logger.py:58-60 | an average confidence is reported exactly when some recognition was logged, and it lies in 0..1 when every confidence does |
| Logging.PerformanceLogger.constructor | logger.py:9-11 | a new logger has the given file and an empty log |
| Logging.PerformanceLogger.LogActivation | logger.py:13-20 | appends exactly one activation record with the given fields |
| Logging.PerformanceLogger.LogRecognition | logger.py:22-29 | appends exactly one recognition record with the given fields |
| Logging.PerformanceLogger.LogConversation | logger.py:31-38 | appends exactly one conversation record with the given fields |
| Logging.TurnsCountConversationCalls | logger.py:31-38 | each `log_conversation` call adds exactly one record and its level to the conversation records; other calls change neither |
| Logging.TurnsReportedAfterCall | logger.py:62-65 | after a `log_conversation` call the reported turn count is one more than the conversation records before it, and the reported level set gains the call's level |
| Monitor.GreetingByHour | main.py:113-121 | morning from 5 to 12, afternoon from 12 to 17, "welcome back" from 17 to 21, "working late" otherwise |
| Monitor.GreetingInjective | main.py:113-121 | different names get different greetings at the same hour |
| Monitor.Greet | main.py:103-124 | a greeting is spoken exactly when the name is due (not greeted within the last 60 seconds); then it is the greeting for the hour and the name's time becomes now; otherwise the times are unchanged |
| Monitor.GreetSuppressedWithinMinute | main.py:103-111 | a name greeted at time t is not greeted again, and its time not refreshed, within 60 seconds; other names' times are untouched; a greeted name is recorded |
| Monitor.KnownNames | main.py:203-205 | the names taken from a frame are all trusted names, no more than the faces |
| Monitor.KnownNamesExact | main.py:203-234 | every trusted face's name is among the names taken from the frame, each of them is the name of a face in it, and there is one exactly when the frame has a trusted face |
| Monitor.WelcomeLines | main.py:203-205 | one spoken "Welcome <name>! Alarm deactivated." per trusted name, in order |
| Monitor.RepeatAlerts | main.py:256-259 | the alerts are speech, and every REPEAT_INTRUDER face of the frame gets its "Alert! Known intruder … detected!" line |
| Monitor.RepeatAlertsCount | main.py:256-259 | there are exactly as many alerts as REPEAT_INTRUDER faces in the frame |
| Monitor.RepeatAlertsFromFaces | main.py:256-259 | each alert is the line of some REPEAT_INTRUDER face of the frame |
| Monitor.LastUnknownEncoding | main.py:256-261 | once an intruder encoding is held, one is always held |
| Monitor.LastUnknownIsLast | main.py:256-261 | the encoding kept is that of the last Unknown face of the frame |
| Monitor.LastUnknownNone | main.py:256-261 | without an Unknown face the encoding held before is kept |
| Monitor.GreetAll | main.py:231-234 | greeting the trusted names in a frame only speaks |
| Monitor.GreetAllTimes | main.py:231-234 | after the greetings each due name carries the time now, every other recorded time is kept, and only the frame's names are added |
| Monitor.GreetAllSpeaks | main.py:231-234 | the greeting of every due name is spoken, at most one greeting per listed name, and only greetings of due names of the frame |
| Monitor.GreetAllOnce | main.py:231-234 | a name listed twice is greeted once: no greeting is spoken twice in a frame |
| Monitor.StatusText | main.py:324-332 | the status line drawn on the frame (StatusTextShape states it for every state and flag combination) |
| Monitor.StatusTextShape | main.py:324-332 | the status line is the siren banner "🚨 SIREN ACTIVE 🚨" while the siren sounds, otherwise "ALERT-L" and the level during a conversation, otherwise "MONITORING"; then " \| SPEAKING" and " \| LISTENING" in that order for the flags that are set, for each of the four flag combinations |
| Monitor.RecognitionDue | main.py:179-180 | whether a pass runs face recognition: outside a conversation as written (also while the siren sounds under the corrected gate), with nobody speaking or listening and the interval elapsed (ClosedGateKeepsCounters and TickDue state its effect) |
| Monitor.EndAlarm | main.py:201-226 | the alarm called off: siren, conversation, waiting, count and level reset and the conversation ended in the session (TrustedFaceStopsSiren and EmptyRoomStopsSiren state it) |
| Monitor.UnknownSighting | main.py:242-275 | the handling of an intruder-only frame (UnknownSightingKeepsInv, UnknownSightingQuiet, RecognitionDebounce and RecognitionStarts state its properties) |
| Monitor.Recognition | main.py:179-280 | the face-recognition stage of a pass (RecognitionDebounce, RecognitionKeepsInv, RecognitionCounts, TrustedFaceStopsSiren and EmptyRoomStopsSiren state its properties) |
| Monitor.Reply | main.py:282-314 | the reply stage of a pass (ReplyFrame, ReplyHandling, ReplyKeepsInv and ReplyCounts state its properties) |
| Monitor.Keyboard | main.py:339-350 | `q` or `d` ends the loop, and stops the siren exactly when it sounds; any other key does nothing; the state is unchanged |
| Monitor.TickWith | main.py:169-350 | one pass under either gate (TickDue, TrustedFaceStopsSiren and EmptyRoomStopsSiren state its properties) |
| Monitor.Tick | main.py:169-350 | one pass as written (TickPreservesInv, TickCounts and ClosedGateKeepsCounters state its properties) |
| Monitor.StartInv | main.py:159-167 | the loop starts in a state satisfying the invariant, once the guard is active and the agent fresh |
| Monitor.TickPreservesInv | main.py:169-350 | every pass keeps the invariant; once started, a conversation and a siren never end during the loop |
| Monitor.UnknownSightingKeepsInv | main.py:242-275 | a counted or uncounted intruder sighting outside a conversation keeps the invariant and the siren silent |
| Monitor.RecognitionKeepsInv | main.py:179-280 | the recognition stage outside a conversation keeps the invariant, keeps the siren silent and never leaves the pass early |
| Monitor.ReplyKeepsInv | main.py:282-314 | the reply stage keeps the invariant and never ends a conversation or stops the siren |
| Monitor.ReplyFrame | main.py:282-314 | the reply stage leaves the debounce counters, the check time, the session flags and the conversation flag alone, and does nothing outside a conversation or with nothing queued |
| Monitor.RecognitionDebounce | main.py:197-280 | an intruder-only frame is counted on its second consecutive pass (count +1, run restarts); a trusted face zeroes both; an empty room keeps the count; the check time becomes now |
| Monitor.ClosedGateKeepsCounters | main.py:172-180 | a pass without a frame, or with recognition not due (in a conversation, speaking, listening, or within 2 s), keeps the counters and the check time |
| Monitor.Turns | main.py:275 | the number of turns issued is at most the number of actions |
| Monitor.TurnsAppend | main.py:275 | turns of concatenated actions add up |
| Monitor.NoTurnsInSpeech | main.py:259 | speech starts no conversation turn |
| Monitor.ConversationStartsAtThreshold | main.py:242-275 | a conversation starts only on the counted sighting that brings the count to 3, and it sets the waiting and session flags |
| Monitor.ConversationStartTurn | main.py:268-275 | the pass that starts the conversation issues a turn without a reply, exactly one when nothing is queued |
| Monitor.StartTurnActions | main.py:256-275 | after the repeat alerts and the saved frame comes the opening turn, and with nothing after them it is the only turn |
| Monitor.TickDue | main.py:169-350 | a pass whose recognition stage runs and does not leave the pass is that stage, then the reply stage, then the keyboard, in order |
| Monitor.RecognitionStarts | main.py:242-275 | recognition starts a conversation only on an intruder-only frame completing the third sighting, and then issues the repeat alerts, the saved frame and one turn without a reply |
| Monitor.ReplyHandling | main.py:282-314 | a reply is taken exactly when the guard waits, nobody speaks or listens, and one is queued; a non-empty reply starts a turn with it and changes the level only by the hostile bump; an empty one escalates, starting the siren and ending the wait exactly at level 3 and issuing another turn below it |
| Monitor.CountsAppend | main.py:299-305 | siren starts and intruder stores of concatenated actions add up |
| Monitor.NoCountsWhenQuiet | main.py:205-275 | speech, saved frames and turns start, stop and store nothing |
| Monitor.UnknownSightingQuiet | main.py:242-275 | an intruder sighting issues only speech, a saved frame and a turn, and leaves the siren and the store flag alone |
| Monitor.TickCounts | main.py:199-350 | a pass starts the siren only when it is silent and leaves it sounding, and stores the intruder only once; the siren is told to stop only by `q` or `d` |
| Monitor.RecognitionCounts | main.py:199-280 | a recognition stage with the siren silent neither starts, stops nor stores anything |
| Monitor.ReplyCounts | main.py:283-314 | the reply stage starts the siren only from silence and stores the intruder only when not yet stored |
| Monitor.RunKeepsInv | main.py:169-350 | a run keeps the invariant, starts the siren at most once, stores the intruder at most once, and stops the siren only when a key ends the run |
| Monitor.UnknownPassesProgress | main.py:242-275 | spaced intruder-only passes advance twice the count plus the run by one each, and the conversation has started exactly when that reaches 6 |
| Monitor.SixUnknownPassesStartConversation | main.py:242-275 | from a clear count, six spaced intruder-only recognition passes start the conversation and fewer do not |
| Monitor.EmptyRepliesEscalate | main.py:290-314 | each empty reply raises the level by one, and the siren sounds exactly when level 3 is reached |
| Monitor.ThirdEmptyReplyStartsSiren | main.py:290-314 | from level 0 the third empty reply starts the siren and fewer do not |
| Monitor.Run | main.py:170-350 | the loop over a sequence of passes while the guard is active, leaving it on `q` or `d` (RunStep, RunKeepsInv, RunBounds and MonitorRoom state its properties) |
| Monitor.RunStep | main.py:169-350 | while the guard is active, a run is one pass followed, unless a key ended it, by the run of the rest |
| Monitor.RunBounds | main.py:169-350 | from a silent start, a run as written keeps the invariant and starts the siren and stores the intruder at most once each |
| Monitor.MonitorRoom | main.py:149-350 | the loop, which stops when the inputs run out, a key is pressed or the guard is no longer active, ends in the state and with the actions of `Run`; as written, from a silent start it keeps the invariant and starts the siren and stores the intruder at most once each |
| Monitor.RoomGuard.constructor | main.py:103-111 | no one has been greeted yet |
| Monitor.RoomGuard.GreetKnownPerson | main.py:103-124 | the greeting times and the greeting spoken are those of `Greet` |
| Monitor.TrustedFaceIgnoredBySiren | main.py:179 | as written, a trusted face seen while the siren sounds neither stops the siren nor ends the alarm |
| Monitor.TrustedFaceStopsSiren | main.py:199-211 | with recognition also run while the siren sounds, a trusted face stops the siren, ends the conversation, resets the level and the count, and the actions are exactly the siren stop followed by "Welcome <name>! Alarm deactivated." for each trusted face, in frame order |
| Monitor.EmptyRoomIgnoredBySiren | main.py:179 | as written, an empty room seen while the siren sounds neither stops the siren nor advances the empty-frame count |
| Monitor.EmptyRoomStopsSiren | main.py:212-227 | with recognition also run while the siren sounds, the pass that completes 30 empty frames stops the siren, says that the intruder has left, ends the conversation, resets the level and the count, and restarts the frame count |
| Monitor.EmptyRoomCountsFrames | main.py:212-229 | with recognition also run while the siren sounds, an empty room before the thirtieth frame only advances the frame count, and the siren keeps sounding |

## Left out

- The camera, the speech synthesiser, the speech listener, the alert sounds and the cv2 window are not part of this model. What they produce (a frame or none, the identified faces, the speaking/listening flags, the queued replies, the key) is an input to each pass. The drawing of face boxes and the `draw_results` call are not modelled.
- Threads are not modelled. A conversation turn runs on its own thread in the source (`handle_conversation_turn`). The model applies its hostile-word bump of the level in the same pass that issues the turn. The speaking and listening threads are reflected only through the flags each pass reads. Interleavings, the conversation lock and the sleeps are not modelled.
- The siren's tone synthesis and audio output (`_play_loop`, the patterns, the audio stream) are not modelled. Only the flags that `start`, `stop` and `is_playing` manage are kept.
- Siren.StartStopProtocol: the stop-then-start race is not modelled. In the source, `stop` joins the playing thread with a 2-second timeout, so an old thread may still be running after a new `start`.
- Face detection, face encodings and `face_distance` are oracles. Encodings are sequences of reals and the distance is a function parameter. Floating point and NaN are not modelled; arithmetic is on exact reals.
- Reading and writing files is not modelled: the image files, the intruder database pickle, `cv2.imwrite`, `save_frame` and `PerformanceLogger.save`. The trusted directory's listing is the `files` input, and an unreadable database is `None`.
- Faces.FaceRecognizer.constructor: requires a stored database to hold as many ids as encodings. Every database that `_save_intruder_database` writes does. The source would accept an unequal pair from a hand-edited pickle and fail later on lookup.
- The `log_recognition` calls inside `monitor_room` and the `log_conversation` call in `handle_conversation_turn` are not issued as actions. The logger itself is modelled, and `Logging.TurnsCountConversationCalls` states what each call does to the statistics.
- Timestamps in log records and in evidence file names are not modelled, and neither is printing of the statistics.
- `GuardActivator.deactivate` only prints a message, and the state manager's prints are dropped.
- Activation.GuardActivator.ListenContinuous: requires the attempt stream to contain a decisive attempt (a match or an interrupt). Without one, the source listens forever.
- The speech recognizer's dynamic energy adjustment is an input: each attempt carries the ambient level it sets. The recognizer itself (`recognize_google`) is the attempt's outcome.
- A keyboard interrupt raised inside `listen_for_activation` propagates out of it in the source. The model returns `Cancelled` instead.
- The similarity ratio of `difflib.SequenceMatcher` is a function parameter.
- Text.Lower and Text.Strip: only ASCII letters are lower-cased and only ASCII whitespace is stripped. The source uses Python's Unicode-aware `lower`, `strip` and `split`.
- An exception inside `monitor_room` ends the loop in the source and is not modelled. A pass without a frame only sleeps, and the model keeps the state apart from appending the queued replies.
- Monitor.MonitorRoom runs over a finite sequence of passes. The source loops until a key is pressed or the guard is deactivated elsewhere.

## Findings

| source | as written | input that shows it | evidently intended | confidence | as-written member | corrected member |
|---|---|---|---|---|---|---|
| main.py:179 | face recognition runs only when `not in_conversation`, but the siren only sounds during a conversation (`in_conversation` stays true once the siren starts), so the branches at main.py:199-229 that stop the siren for a trusted face or an empty room can never run | the siren sounds after three empty replies, then a trusted person steps into view: the siren keeps sounding and no welcome is spoken | run recognition also while the siren sounds: `(not in_conversation or siren_active) and not speaking and not listening` | not executed | Monitor.TrustedFaceIgnoredBySiren | Monitor.TrustedFaceStopsSiren |
| main.py:179 | the same gate keeps the empty-room branch at main.py:212-227 from running, so the room-clear count never advances while the siren sounds | the siren sounds, the intruder leaves, and 30 or more empty frames follow: the siren keeps sounding and "Intruder has left" is never said | the same gate as in the row above | not executed | Monitor.EmptyRoomIgnoredBySiren | Monitor.EmptyRoomStopsSiren |
