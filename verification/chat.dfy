/** Values shared by the chat page, the message view and the chat endpoint. */
module Chat {

  datatype Option<+T> = None | Some(value: T) {
    function GetOr(default: T): T {
      match this
      case Some(v) => v
      case None => default
    }
  }

  /** The roles a chat message may carry (`"user" | "assistant" | "system" | "data"`). */
  datatype Role = User | Assistant | System | Data

  /** A message as the chat hook holds it; its optional creation time is not modelled. */
  datatype ChatMessage = ChatMessage(id: string, role: Role, content: string)

  /** A value thrown by a failed call: an instance of `Error` carries a
    message, any other thrown value does not. */
  datatype Thrown = ErrorWithMessage(message: string) | NonError
}
