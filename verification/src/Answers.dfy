/** What a call gives when an exception may leave it. */
module Answers {
  datatype Answer<T> = Gives(value: T) | Throws
}
