/** The built-in keyword provider (`BasicChatResponseProvider`): a blank
    message gets a fixed prompt; otherwise the lower-cased message is matched
    against an ordered table of trigger phrases, the first trigger it
    contains picks a list of candidate replies, and a random draw picks one
    of them; with no trigger, the draw picks one of the default replies.

    The random number generator is replaced by the caller-supplied `draw`:
    `random.Next(n)` is `draw % n`, which is always a valid index and takes
    every valid index for some draw. */
module BasicChatResponseProvider {
  import opened Wrappers
  import opened Text
  import opened Chat

  /** The reply to a null or blank message. */
  const EmptyReply: string := "Honk? Did you say something? \U{1F9A2}"

  // The candidate lists of the table. The source writes one array per entry;
  // entries that share a list here hold arrays with equal contents there.
  const GreetingReplies: seq<string> := ["Honk! Hello there!", "Hi! \U{1F9A2}", "Greetings, human!"]
  const MoodReplies: seq<string> :=
    ["I'm doing great! Just honking around! \U{1F9A2}", "Feeling goose-tastic!", "Pretty good, thanks for asking!"]
  const IdentityReplies: seq<string> :=
    ["I'm a desktop goose! Honk!", "A helpful (and sometimes mischievous) goose!", "Your friendly neighborhood goose! \U{1F9A2}"]
  const HelpReplies: seq<string> :=
    ["Just type anything and I'll respond! Try asking me how I am!", "I can chat with you! Ask me questions!",
     "I'm here to keep you company! \U{1F9A2}"]
  const FarewellReplies: seq<string> := ["Goodbye! Honk honk! \U{1F9A2}", "See you later!", "Bye! Come back soon!"]
  const ThanksReplies: seq<string> := ["You're welcome! \U{1F9A2}", "No problem!", "Happy to help! Honk!"]
  const GooseReplies: seq<string> :=
    ["Yes, that's me! A goose! \U{1F9A2}", "Honk honk! I love being a goose!", "Geese are the best!"]
  const HonkReplies: seq<string> := ["HONK HONK! \U{1F9A2}", "Honk! \U{1F9A2}", "HONK! That's my language!"]

  /** The trigger table, in definition order. The source holds it in a
      `Dictionary<string, string[]>` and scans it with `foreach`; the model
      takes the enumeration order to be the insertion order, which is what
      the dictionary yields when nothing has been removed from it. */
  const Responses: seq<(string, seq<string>)> := [
    ("hello", GreetingReplies),
    ("hi", GreetingReplies),
    ("hey", GreetingReplies),
    ("how are you", MoodReplies),
    ("what are you", IdentityReplies),
    ("who are you", IdentityReplies),
    ("help", HelpReplies),
    ("bye", FarewellReplies),
    ("goodbye", FarewellReplies),
    ("thank", ThanksReplies),
    ("goose", GooseReplies),
    ("honk", HonkReplies)
  ]

  /** The replies used when no trigger matches. */
  const DefaultResponses: seq<string> := [
    "Honk! I'm not sure what you mean, but I'm listening! \U{1F9A2}",
    "Interesting! Tell me more!",
    "Hmm, let me think about that... HONK!",
    "I'm just a goose, but that sounds fascinating!",
    "\U{1F9A2} Honk honk! (That's goose for 'I hear you!')",
    "I appreciate you chatting with me!"
  ]

  /** `string.IsNullOrWhiteSpace`. */
  predicate IsNullOrWhiteSpace(s: Option<string>) {
    s.None? || AllWhiteSpace(s.value)
  }

  /** Entry `k` is the first entry of `table` whose trigger `msg` contains. */
  ghost predicate IsFirstMatch(table: seq<(string, seq<string>)>, msg: string, k: int) {
    0 <= k < |table| && Contains(msg, table[k].0)
    && forall j | 0 <= j < k :: !Contains(msg, table[j].0)
  }

  /** `msg` contains none of the triggers of `table`. */
  ghost predicate NoMatch(table: seq<(string, seq<string>)>, msg: string) {
    forall j | 0 <= j < |table| :: !Contains(msg, table[j].0)
  }

  /** The `foreach` scan of the table from entry `from` on, stopping at the
      first trigger that `msg` contains. */
  function FirstMatchFrom(table: seq<(string, seq<string>)>, msg: string, from: nat): (r: Option<nat>)
    requires from <= |table|
    ensures r.Some? ==> from <= r.value < |table| && Contains(msg, table[r.value].0)
    ensures r.Some? ==> forall j | from <= j < r.value :: !Contains(msg, table[j].0)
    ensures r.None? ==> forall j | from <= j < |table| :: !Contains(msg, table[j].0)
    decreases |table| - from
  {
    if from == |table| then None
    else if Contains(msg, table[from].0) then Some(from)
    else FirstMatchFrom(table, msg, from + 1)
  }

  /** The index of the entry the scan selects, if any. */
  function FirstMatch(table: seq<(string, seq<string>)>, msg: string): (r: Option<nat>)
    ensures r.Some? ==> IsFirstMatch(table, msg, r.value)
    ensures r.None? <==> NoMatch(table, msg)
  {
    FirstMatchFrom(table, msg, 0)
  }

  /** At most one entry is the first match. */
  lemma FirstMatchUnique(table: seq<(string, seq<string>)>, msg: string, k: int)
    requires IsFirstMatch(table, msg, k)
    ensures FirstMatch(table, msg) == Some(k)
  {
    var r := FirstMatch(table, msg);
    assert r.Some?;
  }

  /** `list[random.Next(list.Length)]` with the draw supplied by the caller. */
  function Pick(candidates: seq<string>, draw: nat): (r: string)
    requires |candidates| > 0
    ensures r in candidates
    ensures draw < |candidates| ==> r == candidates[draw]
  {
    candidates[draw % |candidates|]
  }

  /** The table's shape: every trigger is a non-empty lower-case phrase (so
      lower-casing the message is all the case folding matching needs), and
      every candidate list, the default list included, is non-empty (so every
      draw indexes within bounds). */
  lemma TableWellFormed()
    ensures forall k | 0 <= k < |Responses| :: |Responses[k].0| > 0 && ToLower(Responses[k].0) == Responses[k].0
    ensures forall k | 0 <= k < |Responses| :: |Responses[k].1| > 0
    ensures |DefaultResponses| > 0
  {
  }

  /** The prompt is distinct from every reply of the table and the default list. */
  lemma EmptyReplyDistinct()
    ensures forall k | 0 <= k < |Responses| :: EmptyReply !in Responses[k].1
    ensures EmptyReply !in DefaultResponses
  {
  }

  /** `GetResponse`: the reply to `userMessage`. The history is accepted and not consulted. */
  function GetResponse(userMessage: Option<string>, conversationHistory: seq<ChatMessage>, draw: nat): (r: string)
    ensures r == EmptyReply <==> IsNullOrWhiteSpace(userMessage)
    ensures !IsNullOrWhiteSpace(userMessage) ==>
              forall k | IsFirstMatch(Responses, ToLower(userMessage.value), k) :: r in Responses[k].1
    ensures !IsNullOrWhiteSpace(userMessage) && NoMatch(Responses, ToLower(userMessage.value)) ==>
              r in DefaultResponses
  {
    TableWellFormed();
    EmptyReplyDistinct();
    if IsNullOrWhiteSpace(userMessage) then EmptyReply
    else
      var lowerMessage := ToLower(userMessage.value);
      match FirstMatch(Responses, lowerMessage)
      case Some(k) =>
        var r := Pick(Responses[k].1, draw);
        assert forall j | IsFirstMatch(Responses, lowerMessage, j) :: j == k by {
          forall j | IsFirstMatch(Responses, lowerMessage, j) ensures j == k {
            FirstMatchUnique(Responses, lowerMessage, j);
          }
        }
        r
      case None => Pick(DefaultResponses, draw)
  }

  // ------------------------------------------------------------ properties

  /** Every candidate of the selected entry is the reply for some draw: with
      the contract of `GetResponse`, the possible replies are exactly that list. */
  lemma MatchedRepliesAllReachable(m: string, history: seq<ChatMessage>, k: int)
    requires !AllWhiteSpace(m) && IsFirstMatch(Responses, ToLower(m), k)
    ensures forall i | 0 <= i < |Responses[k].1| :: GetResponse(Some(m), history, i) == Responses[k].1[i]
  {
    FirstMatchUnique(Responses, ToLower(m), k);
  }

  /** With no trigger in the message, every default reply is the reply for some draw. */
  lemma DefaultRepliesAllReachable(m: string, history: seq<ChatMessage>)
    requires !AllWhiteSpace(m) && NoMatch(Responses, ToLower(m))
    ensures forall i | 0 <= i < |DefaultResponses| :: GetResponse(Some(m), history, i) == DefaultResponses[i]
  {
  }

  /** Null, empty and blank messages get the prompt, whatever the history. */
  lemma BlankMessagesGetPrompt(history: seq<ChatMessage>, draw: nat)
    ensures GetResponse(None, history, draw) == EmptyReply
    ensures GetResponse(Some(""), history, draw) == EmptyReply
    ensures GetResponse(Some("   "), history, draw) == EmptyReply
  {
  }

  /** The reply depends on the message and the draw only, never on the history. */
  lemma HistoryIgnored(m: Option<string>, h1: seq<ChatMessage>, h2: seq<ChatMessage>, draw: nat)
    ensures GetResponse(m, h1, draw) == GetResponse(m, h2, draw)
  {
  }

  /** Two messages that lower-case alike get the same reply for the same draw. */
  lemma CaseInsensitive(m1: string, m2: string, history: seq<ChatMessage>, draw: nat)
    requires ToLower(m1) == ToLower(m2)
    ensures GetResponse(Some(m1), history, draw) == GetResponse(Some(m2), history, draw)
  {
    ToLowerPreservesWhiteSpace(m1);
    ToLowerPreservesWhiteSpace(m2);
  }

  /** Messages that differ only in the case of their letters get the same reply. */
  lemma CaseVariantsGetSameReply(m1: string, m2: string, history: seq<ChatMessage>, draw: nat)
    requires |m1| == |m2| && forall i | 0 <= i < |m1| :: SameIgnoringCase(m1[i], m2[i])
    ensures GetResponse(Some(m1), history, draw) == GetResponse(Some(m2), history, draw)
  {
    ToLowerEqIff(m1, m2);
    CaseInsensitive(m1, m2, history, draw);
  }

  /** "HELLO" and "hello" both select the "hello" entry, and get the same reply. */
  lemma HelloInAnyCase(history: seq<ChatMessage>, draw: nat)
    ensures GetResponse(Some("HELLO"), history, draw) == GetResponse(Some("hello"), history, draw)
    ensures GetResponse(Some("hello"), history, draw) in GreetingReplies
  {
    CaseInsensitive("HELLO", "hello", history, draw);
    assert ToLower("hello") == "hello";
    assert !IsWhiteSpace("hello"[0]);
    assert Contains("hello", "hello");
    assert IsFirstMatch(Responses, "hello", 0);
  }

  /** "How are you?" is answered from the "how are you" list: the greeting
      triggers before it do not occur in it. */
  lemma HowAreYouScenario(history: seq<ChatMessage>, draw: nat)
    ensures GetResponse(Some("How are you?"), history, draw) in MoodReplies
  {
    assert ToLower("How are you?") == "how are you?";
    assert !IsWhiteSpace("How are you?"[0]);
    HowAreYouSelectsMood();
  }

  lemma HowAreYouSelectsMood()
    ensures IsFirstMatch(Responses, "how are you?", 3)
  {
    MissingCharNotContained("how are you?", "hello", 2);
    MissingCharNotContained("how are you?", "hi", 1);
    assert !Contains("how are you?", "hey");
    OccurrenceContained("how are you?", "how are you", 0);
  }

  /** A message containing the trigger of entry `j` selects entry `j` or an earlier one. */
  lemma EarlierEntryWins(table: seq<(string, seq<string>)>, msg: string, j: int)
    requires 0 <= j < |table| && Contains(msg, table[j].0)
    ensures FirstMatch(table, msg).Some? && FirstMatch(table, msg).value <= j
  {
  }

  /** A message containing both "hi" and "goodbye" gets a greeting: the
      greeting entries come first in the table. */
  lemma GreetingBeatsFarewell(m: string, history: seq<ChatMessage>, draw: nat)
    requires Contains(ToLower(m), "hi") && Contains(ToLower(m), "goodbye")
    ensures GetResponse(Some(m), history, draw) in GreetingReplies
  {
    var lower := ToLower(m);
    assert !AllWhiteSpace("hi") by { assert !IsWhiteSpace("hi"[0]); }
    ContainsNonWhiteSpace(lower, "hi");
    ToLowerPreservesWhiteSpace(m);
    EarlierEntryWins(Responses, lower, 1);
  }

  /** A message containing both "hello" and "honk" gets a greeting. */
  lemma GreetingBeatsHonk(m: string, history: seq<ChatMessage>, draw: nat)
    requires Contains(ToLower(m), "hello") && Contains(ToLower(m), "honk")
    ensures GetResponse(Some(m), history, draw) in GreetingReplies
  {
    var lower := ToLower(m);
    assert !AllWhiteSpace("hello") by { assert !IsWhiteSpace("hello"[0]); }
    ContainsNonWhiteSpace(lower, "hello");
    ToLowerPreservesWhiteSpace(m);
    EarlierEntryWins(Responses, lower, 0);
  }

  /** Triggers match inside words: "Help with this" is answered with a
      greeting, since "hi" occurs in "this" and comes before "help". */
  lemma HelpWithThisGetsGreeting(history: seq<ChatMessage>, draw: nat)
    ensures GetResponse(Some("Help with this"), history, draw) in GreetingReplies
  {
    assert ToLower("Help with this") == "help with this";
    assert !IsWhiteSpace("Help with this"[0]);
    HelpWithThisSelectsGreeting();
  }

  lemma HelpWithThisSelectsGreeting()
    ensures IsFirstMatch(Responses, "help with this", 1)
  {
    MissingCharNotContained("help with this", "hello", 4);
    OccurrenceContained("help with this", "hi", 11);
  }

  /** An entry whose trigger contains an earlier entry's trigger is never selected. */
  lemma ShadowedEntryUnreachable(table: seq<(string, seq<string>)>, msg: string, j: int, k: int)
    requires 0 <= j < k < |table| && Contains(table[k].0, table[j].0)
    ensures !IsFirstMatch(table, msg, k)
  {
    if Contains(msg, table[k].0) {
      ContainsTransitive(msg, table[k].0, table[j].0);
    }
  }

  /** An entry is selected by some message exactly when no earlier trigger
      occurs in its own trigger; the trigger itself is then such a message. */
  lemma EntryReachableIff(table: seq<(string, seq<string>)>, k: int)
    requires 0 <= k < |table|
    ensures (exists msg :: IsFirstMatch(table, msg, k)) <==> forall j | 0 <= j < k :: !Contains(table[k].0, table[j].0)
  {
    if forall j | 0 <= j < k :: !Contains(table[k].0, table[j].0) {
      ContainsSelf(table[k].0);
      assert IsFirstMatch(table, table[k].0, k);
    } else {
      var j :| 0 <= j < k && Contains(table[k].0, table[j].0);
      forall msg ensures !IsFirstMatch(table, msg, k) {
        ShadowedEntryUnreachable(table, msg, j, k);
      }
    }
  }

  /** The "goodbye" entry is never selected: "bye" comes earlier and occurs in it. */
  lemma GoodbyeNeverSelected(msg: string)
    ensures FirstMatch(Responses, msg) != Some(8)
  {
    assert Responses[8].0 == "goodbye" && Responses[7].0 == "bye";
    assert Contains("goodbye", "bye");
    ShadowedEntryUnreachable(Responses, msg, 7, 8);
  }

  /** Every other entry is selected by its own trigger phrase. */
  lemma OtherEntriesReachable()
    ensures forall k | 0 <= k < |Responses| && k != 8 :: IsFirstMatch(Responses, Responses[k].0, k)
  {
  }
}
