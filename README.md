# Desktop Goose chat core in Dafny

This project models the chat part of the Desktop Goose "DefaultMod" mod. It covers two pieces:

- **Reply selection** (`BasicChatResponseProvider.GetResponse`):
  - A null or blank message gets a fixed prompt.
  - Any other message is lower-cased and matched against an ordered table of (trigger, candidate replies) entries. The first trigger that occurs in the message as a substring wins, and one of its candidates is picked at random.
  - When no trigger occurs, one of the default replies is picked at random.
- **Conversation bookkeeping** in the chat window (`ChatbotWindow`):
  - The window keeps a history of `ChatMessage` entries, the current response provider and the transcript text shown to the user.
  - Submitting input trims it and ignores it when blank.
  - Otherwise the window records the user entry, asks the provider for a reply (passing the history that already holds the user entry) and records the goose's reply. Each entry is also shown in the transcript as `[HH:mm] sender: message` followed by two line breaks.

Modules:

- `Wrappers`: `Option`, used for the null message.
- `Text`: the .NET string operations the core relies on, over `seq<char>`. These are `char.IsWhiteSpace`, `string.Trim`, `string.ToLower` and ordinal `string.Contains`. Each is proved against an independent reference meaning: a slice cut at white space, each upper-case letter mapped to its place in the lower-case alphabet (and equality after folding exactly when strings differ only in letter case), and an occurrence at an index.
- `Chat`: `ChatMessage` (sender, text) and `Provider`, the response-provider interface. A provider is either the built-in basic provider or a custom function.
- `BasicChatResponseProvider`: the reply tables in source order (`Responses`, lines 16-30, and `DefaultResponses`, lines 33-41, of BasicChatResponseProvider.cs), the first-match scan, the random pick as a caller-supplied draw, `GetResponse` and its properties. Properties include precedence between entries, which entries can ever be selected, case insensitivity and that the history is ignored.
- `ChatbotWindowModel`: the window as a class whose methods update `conversationHistory`, `responseProvider` and `chatDisplay` in place. Its invariant ties the transcript to the history. The pure function `Exchange` specifies one submission, and lemmas over `Exchange` prove the log is append-only and keeps its You/Goose alternation. Three short sessions act as clients of the class.

Inputs that come from outside the program are parameters:

- the `HH:mm` timestamps (`DateTime.Now`);
- the random draw (`System.Random.Next`): the candidate at `draw % length` is picked, so every in-range draw `i` picks candidate `i`.

## Model

| member | source | states |
|---|---|---|
| Text.TrimStartSpec | GooseMod_DefaultSolution/DefaultMod/ChatbotWindow.cs:146 | Removing leading white space leaves a suffix of the input. The removed prefix is all white space, and the result does not start with white space. |
| Text.TrimEndSpec | GooseMod_DefaultSolution/DefaultMod/ChatbotWindow.cs:146 | Removing trailing white space leaves a prefix of the input. The removed suffix is all white space, and the result does not end with white space. |
| Text.TrimIsSlice | GooseMod_DefaultSolution/DefaultMod/ChatbotWindow.cs:146 | `Trim` returns a contiguous slice `s[a..b]` with only white space outside it. A non-empty result neither starts nor ends with white space. |
| Text.TrimEmptyIffAllWhiteSpace | GooseMod_DefaultSolution/DefaultMod/ChatbotWindow.cs:146-150 | The trimmed input is empty exactly when the input is all white space, so the empty check rejects exactly the blank inputs. |
| Text.Trim | GooseMod_DefaultSolution/DefaultMod/ChatbotWindow.cs:146 | `string.Trim()`; its meaning is stated by Text.TrimStartSpec, Text.TrimEndSpec and Text.TrimIsSlice. |
| Text.TrimIdempotent | GooseMod_DefaultSolution/DefaultMod/ChatbotWindow.cs:146 | Trimming a trimmed string changes nothing. |
| Text.ToLower | GooseMod_DefaultSolution/DefaultMod/BasicChatResponseProvider.cs:51 | Lower-casing keeps the length of the message. |
| Text.ToLowerSpec | GooseMod_DefaultSolution/DefaultMod/BasicChatResponseProvider.cs:51 | After lower-casing, no character is an upper-case letter, and every character that was not an upper-case letter is unchanged. |
| Text.LetterImage | GooseMod_DefaultSolution/DefaultMod/BasicChatResponseProvider.cs:51 | Each upper-case letter lower-cases to the letter at the same place in the alphabet "abc…z". |
| Text.ToLowerEqIff | GooseMod_DefaultSolution/DefaultMod/BasicChatResponseProvider.cs:51 | Two strings lower-case to the same string exactly when they have the same length and differ only in the case of ASCII letters (both directions). |
| Text.ToLowerIdempotent | GooseMod_DefaultSolution/DefaultMod/BasicChatResponseProvider.cs:51 | Lower-casing twice is the same as lower-casing once. |
| Text.ToLowerPreservesWhiteSpace | GooseMod_DefaultSolution/DefaultMod/BasicChatResponseProvider.cs:45-51 | A message is all white space exactly when its lower-cased form is. |
| Text.MatchesAtIff | GooseMod_DefaultSolution/DefaultMod/BasicChatResponseProvider.cs:56 | The character-by-character comparison at a start index succeeds exactly when the slice of the message there equals the rest of the trigger. |
| Text.ContainsFromIff | GooseMod_DefaultSolution/DefaultMod/BasicChatResponseProvider.cs:56 | The search from position `i` succeeds exactly when the trigger occurs at some index `>= i`. |
| Text.ContainsIff | GooseMod_DefaultSolution/DefaultMod/BasicChatResponseProvider.cs:56 | Ordinal `Contains` holds exactly when the trigger occurs in the message at some index (both directions). |
| Text.OccurrenceContained | GooseMod_DefaultSolution/DefaultMod/BasicChatResponseProvider.cs:56 | An occurrence at a known index makes `Contains` true. |
| Text.MissingCharNotContained | GooseMod_DefaultSolution/DefaultMod/BasicChatResponseProvider.cs:56 | A message lacking one of the trigger's characters does not contain the trigger. |
| Text.Contains | GooseMod_DefaultSolution/DefaultMod/BasicChatResponseProvider.cs:56 | Ordinal `string.Contains`; its meaning is stated by Text.ContainsIff. |
| Text.ContainsSelf | GooseMod_DefaultSolution/DefaultMod/BasicChatResponseProvider.cs:56 | Every string contains itself. |
| Text.ContainsTransitive | GooseMod_DefaultSolution/DefaultMod/BasicChatResponseProvider.cs:56 | Containment is transitive: a message containing "goodbye" also contains "bye". |
| Text.ContainsNonWhiteSpace | GooseMod_DefaultSolution/DefaultMod/BasicChatResponseProvider.cs:45-56 | A message that contains a trigger with a non-white-space character is not blank. |
| BasicChatResponseProvider.IsNullOrWhiteSpace | GooseMod_DefaultSolution/DefaultMod/BasicChatResponseProvider.cs:45 | `string.IsNullOrWhiteSpace`: null, or every character is white space; used in the contract of BasicChatResponseProvider.GetResponse. |
| BasicChatResponseProvider.FirstMatchFrom | GooseMod_DefaultSolution/DefaultMod/BasicChatResponseProvider.cs:54-61 | The scan from entry `from` returns the first entry at or after `from` whose trigger the message contains. It returns None exactly when no such entry exists. |
| BasicChatResponseProvider.FirstMatch | GooseMod_DefaultSolution/DefaultMod/BasicChatResponseProvider.cs:54-61 | The `foreach` scan finds the first matching entry in table order, and finds none exactly when no trigger matches. |
| BasicChatResponseProvider.FirstMatchUnique | GooseMod_DefaultSolution/DefaultMod/BasicChatResponseProvider.cs:54-61 | An entry that is the first match is the one the scan returns. |
| BasicChatResponseProvider.Pick | GooseMod_DefaultSolution/DefaultMod/BasicChatResponseProvider.cs:59 | The random pick returns a member of the non-empty candidate array, and draw `i < length` returns candidate `i`. |
| BasicChatResponseProvider.TableWellFormed | GooseMod_DefaultSolution/DefaultMod/BasicChatResponseProvider.cs:16-41 | Every trigger is a non-empty lower-case phrase. Every candidate array and the default array are non-empty, so `random.Next(Length)` always indexes in bounds. |
| BasicChatResponseProvider.EmptyReplyDistinct | GooseMod_DefaultSolution/DefaultMod/BasicChatResponseProvider.cs:18-47 | The blank-message prompt is not among any entry's replies or the default replies. |
| BasicChatResponseProvider.GetResponse | GooseMod_DefaultSolution/DefaultMod/BasicChatResponseProvider.cs:43-65 | The reply is the prompt exactly when the message is null or blank. Otherwise, when entry `k` is the first whose trigger the lower-cased message contains, the reply is one of `k`'s candidates. When no trigger is contained, the reply is one of the default replies. |
| BasicChatResponseProvider.MatchedRepliesAllReachable | GooseMod_DefaultSolution/DefaultMod/BasicChatResponseProvider.cs:54-59 | For a message whose first match is `k`, draw `i` yields candidate `i` of entry `k`, so every candidate can be the reply. |
| BasicChatResponseProvider.DefaultRepliesAllReachable | GooseMod_DefaultSolution/DefaultMod/BasicChatResponseProvider.cs:63-64 | For a non-blank message matching no trigger, draw `i` yields default reply `i`. |
| BasicChatResponseProvider.BlankMessagesGetPrompt | GooseMod_DefaultSolution/DefaultMod/BasicChatResponseProvider.cs:45-48 | Null, empty and space-only messages get "Honk? Did you say something? 🦢" whatever the history and draw. |
| BasicChatResponseProvider.HistoryIgnored | GooseMod_DefaultSolution/DefaultMod/BasicChatResponseProvider.cs:43-65 | The reply does not depend on the conversation history. |
| BasicChatResponseProvider.CaseInsensitive | GooseMod_DefaultSolution/DefaultMod/BasicChatResponseProvider.cs:51 | Two messages with the same lower-cased form get the same reply for the same draw. |
| BasicChatResponseProvider.CaseVariantsGetSameReply | GooseMod_DefaultSolution/DefaultMod/BasicChatResponseProvider.cs:51-64 | Two messages that differ only in the case of their letters get the same reply for the same draw. |
| BasicChatResponseProvider.HelloInAnyCase | GooseMod_DefaultSolution/DefaultMod/BasicChatResponseProvider.cs:18-51 | "HELLO" and "hello" get the same reply, and it is one of the greeting replies. |
| BasicChatResponseProvider.HowAreYouSelectsMood | GooseMod_DefaultSolution/DefaultMod/BasicChatResponseProvider.cs:18-21 | In "how are you?" the first matching entry is "how are you" (entry 3): "hello", "hi" and "hey" do not occur. |
| BasicChatResponseProvider.HowAreYouScenario | GooseMod_DefaultSolution/DefaultMod/BasicChatResponseProvider.cs:21-59 | "How are you?" is answered from the line-21 replies. |
| BasicChatResponseProvider.EarlierEntryWins | GooseMod_DefaultSolution/DefaultMod/BasicChatResponseProvider.cs:54-61 | When the message contains trigger `j`, the scan stops at an entry no later than `j`. |
| BasicChatResponseProvider.GreetingBeatsFarewell | GooseMod_DefaultSolution/DefaultMod/BasicChatResponseProvider.cs:19-26 | A message containing both "hi" and "goodbye" is answered with a greeting. |
| BasicChatResponseProvider.GreetingBeatsHonk | GooseMod_DefaultSolution/DefaultMod/BasicChatResponseProvider.cs:18-29 | A message containing both "hello" and "honk" is answered with a greeting. |
| BasicChatResponseProvider.HelpWithThisSelectsGreeting | GooseMod_DefaultSolution/DefaultMod/BasicChatResponseProvider.cs:18-24 | In "help with this" the first matching entry is "hi" (entry 1), because "hi" occurs inside "this". |
| BasicChatResponseProvider.HelpWithThisGetsGreeting | GooseMod_DefaultSolution/DefaultMod/BasicChatResponseProvider.cs:19-59 | "Help with this" is answered with a greeting, not a help reply. |
| BasicChatResponseProvider.ShadowedEntryUnreachable | GooseMod_DefaultSolution/DefaultMod/BasicChatResponseProvider.cs:54-61 | An entry whose trigger contains an earlier entry's trigger is never the first match. |
| BasicChatResponseProvider.EntryReachableIff | GooseMod_DefaultSolution/DefaultMod/BasicChatResponseProvider.cs:54-61 | An entry is the first match for some message exactly when no earlier trigger occurs inside its own trigger. |
| BasicChatResponseProvider.GoodbyeNeverSelected | GooseMod_DefaultSolution/DefaultMod/BasicChatResponseProvider.cs:25-26 | The "goodbye" entry is never selected, because "bye" precedes it and occurs in it. |
| BasicChatResponseProvider.OtherEntriesReachable | GooseMod_DefaultSolution/DefaultMod/BasicChatResponseProvider.cs:18-29 | Every entry other than "goodbye" is the first match for its own trigger, so each of those entries can be selected. |
| ChatbotWindowModel.Respond | GooseMod_DefaultSolution/DefaultMod/ChatbotWindow.cs:163 | Dispatches to the installed provider; the basic provider answers with the blank-message prompt exactly when the message is blank. |
| ChatbotWindowModel.TranscriptAppend | GooseMod_DefaultSolution/DefaultMod/ChatbotWindow.cs:170-174 | Recording one more entry extends the transcript by exactly that entry's formatted block. |
| ChatbotWindowModel.TranscriptAppendExchange | GooseMod_DefaultSolution/DefaultMod/ChatbotWindow.cs:153-167 | Recording a user entry and a reply extends the transcript by exactly their two blocks, in that order. |
| ChatbotWindowModel.Exchange | GooseMod_DefaultSolution/DefaultMod/ChatbotWindow.cs:144-168 | Blank input leaves the log unchanged. Otherwise the log grows by exactly two entries: first ("You", trimmed input), then ("Goose", the provider's reply). The provider gets the trimmed message and the log extended by the user entry. |
| ChatbotWindowModel.ExchangeKeepsLogWellFormed | GooseMod_DefaultSolution/DefaultMod/ChatbotWindow.cs:153-167 | A submission keeps the log a sequence of (You, Goose) pairs in which the user entries are trimmed and non-empty. |
| ChatbotWindowModel.ReplayAppendOnly | GooseMod_DefaultSolution/DefaultMod/ChatbotWindow.cs:144-168 | Over any series of submissions, earlier entries are never removed or changed. The log grows by two per non-blank submission, and its You/Goose shape is kept. |
| ChatbotWindowModel.BasicProviderAnswersSubmission | GooseMod_DefaultSolution/DefaultMod/ChatbotWindow.cs:146-163 | What the window passes to the basic provider is never blank, so its reply is never the blank-message prompt. |
| ChatbotWindowModel.ChatbotWindow.constructor | GooseMod_DefaultSolution/DefaultMod/ChatbotWindow.cs:20-27 | A new window has an empty history and the basic provider. The greeting appears only in the transcript, never in the history. |
| ChatbotWindowModel.ChatbotWindow.SetResponseProvider | GooseMod_DefaultSolution/DefaultMod/ChatbotWindow.cs:32-35 | Replaces the provider used by later submissions. The history and transcript are unchanged. |
| ChatbotWindowModel.ChatbotWindow.AddMessage | GooseMod_DefaultSolution/DefaultMod/ChatbotWindow.cs:170-174 | Appends exactly `[ts] sender: message` followed by two CR LF pairs, leaving the earlier text unchanged. |
| ChatbotWindowModel.ChatbotWindow.SendMessage | GooseMod_DefaultSolution/DefaultMod/ChatbotWindow.cs:144-168 | The new history is `Exchange` of the old one. The transcript gains the user block and the reply block exactly when the trimmed input is non-empty. The window invariant is kept: transcript = greeting + one block per history entry, and the history is (You, Goose) pairs. |
| ChatbotWindowModel.HelloSession | GooseMod_DefaultSolution/DefaultMod/ChatbotWindow.cs:144-168 | Sending "hello" to a new window leaves the history as ("You", "hello") followed by a goose greeting. |
| ChatbotWindowModel.BlankSession | GooseMod_DefaultSolution/DefaultMod/ChatbotWindow.cs:146-150 | Sending only blank input leaves the history empty and the transcript holding only the greeting. |
| ChatbotWindowModel.EchoSession | GooseMod_DefaultSolution/DefaultMod/ChatbotWindow.cs:144-168 | After a custom provider is installed, it is the one that answers. It receives the trimmed input and a history that already ends with the user entry. |

## Left out

- The WinForms user interface is not modelled. This covers:
  - control construction and layout (ChatbotWindow.cs:46-116, apart from the greeting at line 115);
  - focus and keyboard handlers (118-142);
  - clearing and focusing the input box (157-160);
  - the caret and scrolling (177-178);
  - hiding instead of closing (185-193);
  - `GetWindowHandle` (41-44).
  The input box text is the `userInput` parameter of `SendMessage`.
- The drag-the-window goose task (ChatbotTask.cs) and the mod entry point (ModMain.cs) are not modelled. They are floating-point animation, Win32 calls and calls into the host game engine.
- `ChatMessage.Timestamp` (IChatResponseProvider.cs:28,34) is dropped. Display timestamps (`DateTime.Now.ToString("HH:mm")`) are string parameters, one per `AddMessage` call.
- `System.Random` is replaced by a `draw` parameter. The pick is `draw % length`, and a custom provider also receives the draw, as its only source of variation.
- `Dictionary` enumeration order is modelled as insertion (source) order. .NET does not document this order, and "first match wins" depends on it.
- Text.ToLower: does not model culture-sensitive lower-casing. Only ASCII 'A'..'Z' are folded. For example, "HON\u212A" (ending in the Kelvin sign) lower-cases to "honk" in .NET, but here it matches no trigger. A Turkish culture would turn "HI" into "hı", which the model also does not do.
- Text.IsWhiteSpace: strings are sequences of Unicode scalar values, not UTF-16 code units. The emoji in the replies is one character here and two in .NET; no modelled property depends on that length.
- ChatbotWindowModel.ChatbotWindow.SendMessage: "the provider is not called on blank input" is modelled only as "the blank case does not depend on the provider". Providers are pure functions here, so a call has no observable effect to rule out.
- ChatbotWindowModel.Exchange: a custom provider is a pure, total function of (message, history, draw) returning a string. In the original, a provider receives the window's live history list, whose `ChatMessage` entries have public setters. It could add, remove or edit entries, and it could return null, which the window would then show as "Goose: " and store. The model assumes providers do none of this and keep no state of their own. ChatbotWindowModel.ReplayAppendOnly, ChatbotWindowModel.ExchangeKeepsLogWellFormed and the history-shape part of the window invariant rely on that assumption; for an arbitrary provider of the original they do not hold.
