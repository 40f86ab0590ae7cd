/** The model's verdict as the script reads it from the decoded JSON object,
    and the decision the script takes on a message. */
module Judgment {
  import opened Wrappers

  /** One flagged span. `phrase` is `None` for a JSON `null` (a missing key
      reads as the empty phrase); `replacement` is `None` when it is missing
      or `null`. */
  datatype Violation = Violation(phrase: Option<string>, reason: string, replacement: Option<string>)

  /** The `action` key: absent, present with a value that is not a string
      (such as `null`), or a string. */
  datatype ActionField = Missing | NotString | Text(name: string)

  /** The decoded verdict. `violatesTos` is the truthiness of `violates_tos`
      (false when absent); `violations` is empty when the key is absent or
      `null`. */
  datatype Analysis = Analysis(violatesTos: bool, violations: seq<Violation>, action: ActionField)

  /** What the script does to the message. */
  datatype Decision = Delete | Edit(text: string) | NoAction

  /** The verdict returned whenever the response cannot be obtained or
      decoded: `{"violates_tos": False}`. */
  const FailOpen := Analysis(false, [], Missing)
}
