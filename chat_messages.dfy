/** The transcript as the chat hands it to the derivation. */
module ChatMessages {
  import opened Wrappers

  /** `system` stands for every role other than the two the derivation looks at. */
  datatype Role = User | Assistant | System

  /**
   * The payload of a tool part. A field the payload lacks, or holds as the
   * empty string, is the empty string here: both are falsy in JavaScript.
   * A missing id and an empty one would still differ as dictionary keys and
   * in the dedupe comparison; generated ids are never either.
   */
  datatype ToolResult = ToolResult(id: string, category: string, question: string, explanation: string)

  /** A message part: text, a tool invocation with its result (absent or null: `None`), or any other kind. */
  datatype Part =
    | Text(text: string)
    | Tool(toolName: string, result: Option<ToolResult>)
    | OtherPart

  /** Message ids, timestamps and attachments take no part in the derivation and are not modelled. */
  datatype Message = Message(role: Role, parts: seq<Part>, content: string)
}
