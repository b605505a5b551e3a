/** The validator of the project-name prompt. */
module NameValidation {

  /** What a prompt validator answers: accept, or reject with the message shown to the user. */
  datatype Verdict = Accepted | Rejected(message: string)

  const EmptyNameMessage: string := "Project name cannot be empty."

  /**
   * The prompt accepts the typed text exactly when it is truthy, which for a
   * string means non-empty; otherwise it re-prompts with the message.
   */
  function ValidateName(input: string): (r: Verdict)
    ensures r == Accepted <==> |input| > 0
    ensures r.Rejected? ==> r.message == EmptyNameMessage
  {
    if input != "" then Accepted else Rejected(EmptyNameMessage)
  }
}
