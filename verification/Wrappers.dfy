/** Types the other modules share. */
module Wrappers {
  datatype Option<+T> = None | Some(value: T)

  /** Encodes a value as JSON text, or fails. */
  type Encoder<-A> = A -> Option<string>

  /** Decodes JSON text, or fails. */
  type Decoder<+T> = string -> Option<T>

  /** What happens to one remote command: answered, executed but unanswered, or never executed. */
  datatype Network = Fine | ReplyLost | RequestLost
}
