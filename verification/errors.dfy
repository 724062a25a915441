/** The error vocabulary shared by the containers.

    The Go library distinguishes failures by identity of sentinel error
    values (`errs.IndexOutOfBound`, `list.NoSuchElement`, `stack.NotExistErr`,
    ...); each sentinel is one constructor here. Errors that carry text
    (an index-out-of-bounds value with a detail, a `fmt.Errorf` error) keep
    that text. */
module Errors {

  datatype Error =
    | IndexOutOfBound
    | NoSuchElement
    | IllegalState
    | NilPointer
      /** stack.NotExistErr */
    | NotExist
      /** Marks the result of a Go statement that dereferences a nil pointer
          and therefore panics. */
    | NilDereference
      /** An index-out-of-bounds error value whose Error() text is `text`. */
    | OutOfBoundMessage(text: string)
      /** An error built by fmt.Errorf with the given text. */
    | Message(text: string)
}
