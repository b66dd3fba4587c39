/** The types shared by the chat window and the response providers. */
module Chat {

  /** One entry of the conversation: who sent it and what it says. The
      creation timestamp of the source's `ChatMessage` is left out. */
  datatype ChatMessage = ChatMessage(sender: string, message: string)

  /** The response provider a chat window holds (`IChatResponseProvider`):
      the built-in keyword provider, or any other provider, given as the
      function that maps (message, history, random draw) to a reply. */
  datatype Provider =
    | Basic
    | Custom(getResponse: (string, seq<ChatMessage>, nat) -> string)
}
