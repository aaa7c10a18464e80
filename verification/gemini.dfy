/** The outcome of one `GenerateContent` call, as the recorders observe it. */
module Gemini {

  /**
   * `CallFailed`: the call returned an error. `NoText`: it returned, but the
   * first part of the first candidate is missing or not text. `Text`: that
   * first part's text.
   */
  datatype Reply = CallFailed | NoText | Text(text: string)
}
