/**
 * What a controller action gets from the request and gives back: the `code`
 * field as submitted, and an outcome made of an HTTP status and the message
 * the JSON body carries.
 */
module Responses {

  /** The `code` field of a request body: missing (or null), a string, or some
      other JSON value (a number, an array). */
  datatype Param = Absent | Text(s: string) | NotText

  /** The characters PHP's `trim` strips. */
  predicate TrimmedAway(c: char)
  {
    c == ' ' || c == '\t' || c == '\n' || c == '\r' || c == '\0' || c == '\U{0B}'
  }

  /** A string that `trim` reduces to ''. */
  predicate Blank(s: string)
  {
    forall i :: 0 <= i < |s| ==> TrimmedAway(s[i])
  }

  /** The rule `required|string`: present, a string, and not blank. */
  function Filled(p: Param): (r: bool)
    ensures r ==> p.Text? && |p.s| > 0
    ensures p.Text? && |p.s| > 0 && !TrimmedAway(p.s[0]) ==> r
  {
    p.Text? && !Blank(p.s)
  }

  /** The inputs the validation tests send: a missing value, a non-string, the
      empty string and whitespace are refused; a join code is accepted. */
  lemma FilledCases()
    ensures !Filled(Absent) && !Filled(NotText)
    ensures !Filled(Text("")) && !Filled(Text(" \t")) && !Filled(Text("\n\r\0\U{0B}"))
    ensures Filled(Text("ABCDEFGHIJ"))
  {
    assert !Blank("ABCDEFGHIJ") by { assert !TrimmedAway("ABCDEFGHIJ"[0]); }
  }

  /** Which response an action produced. */
  datatype Message =
    | ValidationFailed    // the validator's per-field errors
    | CodeUnknown
    | AlreadyInBoard
    | BoardFull
    | Joined
    | BoardReturned       // the joined board itself, as JSON
    | NotFound            // `findOrFail` or route-model binding found no row
    | NotMember
    | MasterCannotLeave
    | WouldBecomeEmpty
    | Left
    | PlayerCannotDelete
    | NullMembership      // a property read on a null membership row: a server error
    | EmptyBody           // the action returned nothing
    | RedirectedBack      // a failed `$request->validate` answering a client that does not ask for JSON
    | Deleted

  datatype Response = Response(status: int, message: Message)

  /** A value for a successful request, or the error response. */
  datatype Result<T> = Ok(value: T) | Err(error: Response)
}
