/** The conversation bookkeeping of the chat window (`ChatbotWindow`): the
    append-only conversation history, the response provider it forwards each
    message to, and the transcript text it shows. Controls, layout, focus and
    scrolling are not modelled; the clock readings (`DateTime.Now` formatted as
    "HH:mm") and the provider's random draw are parameters. */
module ChatbotWindowModel {
  import opened Wrappers
  import opened Text
  import opened Chat
  import BasicChatResponseProvider

  const UserSender: string := "You"
  const GooseSender: string := "Goose"

  /** The greeting the window shows when it is created. */
  const Greeting: string :=
    "Honk! Hello! I'm your Desktop Goose! Type a message and press Send or Enter to chat with me! \U{1F9A2}"

  /** Calls the provider's `GetResponse`. The basic provider answers with the
      blank-message prompt exactly when the message is blank. */
  function Respond(provider: Provider, message: string, history: seq<ChatMessage>, draw: nat): (r: string)
    ensures provider.Basic? ==> (r == BasicChatResponseProvider.EmptyReply <==> AllWhiteSpace(message))
  {
    match provider
    case Basic => BasicChatResponseProvider.GetResponse(Some(message), history, draw)
    case Custom(getResponse) => getResponse(message, history, draw)
  }

  /** The block `AddMessage` appends to the transcript: "[HH:mm] sender: message"
      followed by an empty line, with Windows line ends. */
  function FormatMessage(timestamp: string, sender: string, message: string): string {
    "[" + timestamp + "] " + sender + ": " + message + "\r\n\r\n"
  }

  /** The transcript blocks of the history entries, in order, each with its own timestamp. */
  function Transcript(stamps: seq<string>, log: seq<ChatMessage>): string
    requires |stamps| == |log|
    decreases |log|
  {
    if log == [] then ""
    else
      var n := |log| - 1;
      Transcript(stamps[..n], log[..n]) + FormatMessage(stamps[n], log[n].sender, log[n].message)
  }

  lemma TranscriptAppend(stamps: seq<string>, log: seq<ChatMessage>, stamp: string, entry: ChatMessage)
    requires |stamps| == |log|
    ensures Transcript(stamps + [stamp], log + [entry])
            == Transcript(stamps, log) + FormatMessage(stamp, entry.sender, entry.message)
  {
    assert (stamps + [stamp])[..|log|] == stamps;
    assert (log + [entry])[..|log|] == log;
  }

  /** The transcript after one exchange: the two new blocks follow the old transcript. */
  lemma TranscriptAppendExchange(header: string, stamps: seq<string>, log: seq<ChatMessage>,
                                 stamp1: string, entry1: ChatMessage, stamp2: string, entry2: ChatMessage)
    requires |stamps| == |log|
    ensures header + Transcript(stamps, log)
              + FormatMessage(stamp1, entry1.sender, entry1.message)
              + FormatMessage(stamp2, entry2.sender, entry2.message)
            == header + Transcript(stamps + [stamp1] + [stamp2], log + [entry1] + [entry2])
  {
    TranscriptAppend(stamps, log, stamp1, entry1);
    TranscriptAppend(stamps + [stamp1], log + [entry1], stamp2, entry2);
  }

  /** A user entry: sent by "You", with trimmed, non-empty text. */
  ghost predicate IsUserEntry(m: ChatMessage) {
    m.sender == UserSender && m.message != [] && Trim(m.message) == m.message
  }

  /** The history is a series of exchanges: a user entry followed by a "Goose" reply. */
  ghost predicate WellFormedLog(log: seq<ChatMessage>)
    decreases |log|
  {
    log == []
    || (|log| >= 2 && WellFormedLog(log[..|log| - 2])
        && IsUserEntry(log[|log| - 2]) && log[|log| - 1].sender == GooseSender)
  }

  /** The history after one submission of `userInput` (`SendMessage`): nothing
      for blank input; otherwise the user entry, then the reply the provider
      gives to the trimmed text and the history that already ends with that entry. */
  function Exchange(log: seq<ChatMessage>, provider: Provider, userInput: string, draw: nat): (r: seq<ChatMessage>)
    ensures Trim(userInput) == [] ==> r == log
    ensures Trim(userInput) != [] ==>
              |r| == |log| + 2 && r[..|log|] == log
              && r[|log|] == ChatMessage(UserSender, Trim(userInput))
              && r[|log| + 1] == ChatMessage(GooseSender, Respond(provider, Trim(userInput), r[..|log| + 1], draw))
  {
    var message := Trim(userInput);
    if message == [] then log
    else
      var withUser := log + [ChatMessage(UserSender, message)];
      var r := withUser + [ChatMessage(GooseSender, Respond(provider, message, withUser, draw))];
      assert r[..|log| + 1] == withUser;
      r
  }

  /** A submission keeps the history's alternating shape. */
  lemma ExchangeKeepsLogWellFormed(log: seq<ChatMessage>, provider: Provider, userInput: string, draw: nat)
    requires WellFormedLog(log)
    ensures WellFormedLog(Exchange(log, provider, userInput, draw))
  {
    var r := Exchange(log, provider, userInput, draw);
    if Trim(userInput) != [] {
      TrimIdempotent(userInput);
      assert r[..|r| - 2] == log;
    }
  }

  /** The history after a series of submissions, each an input and a draw. */
  function Replay(log: seq<ChatMessage>, provider: Provider, submissions: seq<(string, nat)>): seq<ChatMessage>
    decreases |submissions|
  {
    if submissions == [] then log
    else Replay(Exchange(log, provider, submissions[0].0, submissions[0].1), provider, submissions[1..])
  }

  /** How many of the submissions are not blank. */
  function NonBlankCount(submissions: seq<(string, nat)>): nat
    decreases |submissions|
  {
    if submissions == [] then 0
    else (if Trim(submissions[0].0) == [] then 0 else 1) + NonBlankCount(submissions[1..])
  }

  /** Over any series of submissions the history only grows: the old history
      stays a prefix, each non-blank submission adds two entries, and the
      history keeps its alternating shape. */
  lemma {:induction false} ReplayAppendOnly(log: seq<ChatMessage>, provider: Provider, submissions: seq<(string, nat)>)
    ensures log <= Replay(log, provider, submissions)
    ensures |Replay(log, provider, submissions)| == |log| + 2 * NonBlankCount(submissions)
    ensures WellFormedLog(log) ==> WellFormedLog(Replay(log, provider, submissions))
    decreases |submissions|
  {
    if submissions != [] {
      var next := Exchange(log, provider, submissions[0].0, submissions[0].1);
      ReplayAppendOnly(next, provider, submissions[1..]);
      assert log <= next;
      if WellFormedLog(log) {
        ExchangeKeepsLogWellFormed(log, provider, submissions[0].0, submissions[0].1);
      }
    }
  }

  /** With the built-in provider, a submission that passes the emptiness check
      is never answered with the blank-message prompt: it is answered from the
      table or the default list. */
  lemma BasicProviderAnswersSubmission(userInput: string, history: seq<ChatMessage>, draw: nat)
    requires Trim(userInput) != []
    ensures Respond(Basic, Trim(userInput), history, draw) != BasicChatResponseProvider.EmptyReply
    ensures !BasicChatResponseProvider.IsNullOrWhiteSpace(Some(Trim(userInput)))
  {
    TrimIsSlice(userInput);
  }

  class ChatbotWindow {
    var conversationHistory: seq<ChatMessage>
    var responseProvider: Provider
    /** The text of the transcript box. */
    var chatDisplay: string
    /** The greeting block the transcript starts with, and the timestamps
        shown with the history entries. */
    ghost var greetingBlock: string
    ghost var stamps: seq<string>

    /** The transcript is the greeting followed by one block per history entry,
        and the history has its alternating shape. */
    ghost predicate Valid()
      reads this
    {
      |stamps| == |conversationHistory|
      && WellFormedLog(conversationHistory)
      && chatDisplay == greetingBlock + Transcript(stamps, conversationHistory)
    }

    /** A new window shows the greeting, has an empty history and uses the
        built-in provider. The source shows the greeting while it builds the
        controls, before the history and provider are set; nothing reads
        those in between. */
    constructor (now: string)
      ensures Valid()
      ensures conversationHistory == [] && responseProvider == Basic
      ensures chatDisplay == greetingBlock == FormatMessage(now, GooseSender, Greeting)
    {
      chatDisplay := "";
      conversationHistory := [];
      responseProvider := Basic;
      greetingBlock := FormatMessage(now, GooseSender, Greeting);
      stamps := [];
      new;
      AddMessage(now, GooseSender, Greeting);
    }

    /** Replaces the provider used by later submissions. */
    method SetResponseProvider(provider: Provider)
      requires Valid()
      modifies this`responseProvider
      ensures Valid()
      ensures responseProvider == provider
      ensures conversationHistory == old(conversationHistory) && chatDisplay == old(chatDisplay)
    {
      responseProvider := provider;
    }

    /** Appends one formatted block to the transcript. Private to the window in
        the original: only the constructor and `SendMessage` call it, and they
        restore `Valid()` around the call; a call from elsewhere would leave the
        transcript out of step with the history. */
    method AddMessage(timestamp: string, sender: string, message: string)
      modifies this`chatDisplay
      ensures chatDisplay == old(chatDisplay) + FormatMessage(timestamp, sender, message)
    {
      chatDisplay := chatDisplay + FormatMessage(timestamp, sender, message);
    }

    /** Submits `userInput`: blank input changes nothing; otherwise the user
        entry and the provider's reply are shown (stamped `userStamp` and
        `gooseStamp`) and appended to the history. */
    method SendMessage(userInput: string, userStamp: string, gooseStamp: string, draw: nat)
      requires Valid()
      modifies this`conversationHistory, this`chatDisplay, this`stamps
      ensures Valid()
      ensures conversationHistory == Exchange(old(conversationHistory), responseProvider, userInput, draw)
      ensures Trim(userInput) == [] ==> chatDisplay == old(chatDisplay)
      ensures Trim(userInput) != [] ==>
                chatDisplay == old(chatDisplay)
                               + FormatMessage(userStamp, UserSender, Trim(userInput))
                               + FormatMessage(gooseStamp, GooseSender, conversationHistory[|conversationHistory| - 1].message)
    {
      var message := Trim(userInput);
      if message == [] {
        return;
      }
      ghost var log0, stamps0, display0 := conversationHistory, stamps, chatDisplay;
      ExchangeKeepsLogWellFormed(log0, responseProvider, userInput, draw);

      var userEntry := ChatMessage(UserSender, message);
      AddMessage(userStamp, UserSender, message);
      conversationHistory := conversationHistory + [userEntry];
      stamps := stamps + [userStamp];

      var response := Respond(responseProvider, message, conversationHistory, draw);

      var gooseEntry := ChatMessage(GooseSender, response);
      AddMessage(gooseStamp, GooseSender, response);
      conversationHistory := conversationHistory + [gooseEntry];
      stamps := stamps + [gooseStamp];

      TranscriptAppendExchange(greetingBlock, stamps0, log0, userStamp, userEntry, gooseStamp, gooseEntry);
      assert conversationHistory == log0 + [userEntry] + [gooseEntry];
    }
  }

  /** A session that sends "hello" to a new window: the history then holds the
      user's "hello" and a greeting from the "hello" entry. */
  method HelloSession(now: string, draw: nat) returns (log: seq<ChatMessage>)
    ensures |log| == 2
    ensures log[0] == ChatMessage(UserSender, "hello")
    ensures log[1].sender == GooseSender && log[1].message in BasicChatResponseProvider.GreetingReplies
  {
    var window := new ChatbotWindow(now);
    assert Trim("hello") == "hello";
    window.SendMessage("hello", now, now, draw);
    var userEntry := ChatMessage(UserSender, "hello");
    BasicChatResponseProvider.HelloInAnyCase([userEntry], draw);
    log := window.conversationHistory;
    assert log[1] == ChatMessage(GooseSender, Respond(Basic, "hello", [userEntry], draw));
  }

  /** A session that sends only blank input: the history stays empty and the
      transcript holds only the greeting. */
  method BlankSession(now: string, draw: nat) returns (log: seq<ChatMessage>, display: string)
    ensures log == []
    ensures display == FormatMessage(now, GooseSender, Greeting)
  {
    var window := new ChatbotWindow(now);
    TrimEmptyIffAllWhiteSpace("");
    TrimEmptyIffAllWhiteSpace("   ");
    window.SendMessage("", now, now, draw);
    window.SendMessage("   ", now, now, draw);
    log, display := window.conversationHistory, window.chatDisplay;
  }

  /** A stand-in provider: it echoes the message when the history it is
      given already ends with that message, and answers "" otherwise. */
  function Echo(message: string, history: seq<ChatMessage>, draw: nat): string {
    if |history| > 0 && history[|history| - 1].message == message then message else ""
  }

  /** A session with the echo provider installed: the provider gets the
      trimmed input and sees the user entry already recorded. */
  method EchoSession(now: string, userInput: string, draw: nat) returns (log: seq<ChatMessage>)
    requires Trim(userInput) != []
    ensures log == [ChatMessage(UserSender, Trim(userInput)), ChatMessage(GooseSender, Trim(userInput))]
  {
    var window := new ChatbotWindow(now);
    window.SetResponseProvider(Custom(Echo));
    window.SendMessage(userInput, now, now, draw);
    log := window.conversationHistory;
    assert log[..1] == [ChatMessage(UserSender, Trim(userInput))];
  }
}
