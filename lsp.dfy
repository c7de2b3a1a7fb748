/** The Language Server Protocol values that the server builds. */
module Lsp {
  import opened Wrappers

  datatype Position = Position(line: int, character: int)

  datatype Range = Range(start: Position, end: Position)

  datatype Location = Location(uri: string, range: Range)

  /** `MarkupKind.Markdown`. */
  const Markdown: string := "markdown"

  datatype MarkupContent = MarkupContent(kind: string, value: string)

  /** `CompletionItemKind.Field` in the protocol's numbering. */
  const FieldKind: int := 5

  /** A completion item (`labelText` is the protocol's `label`, a reserved
      word in Dafny); its `additional_text_edits` list is always empty and is
      not represented. */
  datatype CompletionItem = CompletionItem(labelText: string, kind: int, documentation: MarkupContent)

  datatype CompletionList = CompletionList(isIncomplete: bool, items: seq<CompletionItem>)

  datatype Hover = Hover(contents: MarkupContent, range: Range)

  /** The parameters of a `window/showDocument` request. */
  datatype ShowDocumentParams = ShowDocumentParams(uri: string, selection: Range)

  /** The completion options the server advertises; the list is updated in place. */
  class CompletionOptions {
    var triggerCharacters: Option<seq<string>>

    constructor (triggers: Option<seq<string>>)
      ensures triggerCharacters == triggers
    {
      triggerCharacters := triggers;
    }
  }

  /** The capabilities of an initialize result. */
  class ServerCapabilities {
    var completionProvider: CompletionOptions?

    constructor (provider: CompletionOptions?)
      ensures completionProvider == provider
    {
      completionProvider := provider;
    }
  }
}
