/**
 * The highlighter the tag hands to the exporter: Pygments with the CSS class
 * `highlight-ipynb`, and the `ipython` lexer when no language is given.
 * Pygments itself is a parameter: it is not modelled.
 */
module Highlight {
  import opened Wrappers

  const DefaultLexer := "ipython"
  const NotebookCssClass := "highlight-ipynb"

  /** Pygments' HtmlFormatter, reduced to the one option the tag sets. */
  datatype Formatter = HtmlFormatter(cssclass: string)

  /** The lexer name: the language when it is a non-empty string, `ipython` for None or "". */
  function Lexer(language: Option<string>): (lexer: string)
    ensures lexer != []
    ensures lexer == DefaultLexer || language == Some(lexer)
    ensures language.Some? && language.value != [] ==> lexer == language.value
  {
    if language.None? || language.value == [] then DefaultLexer else language.value
  }

  /** `custom_highlighter`: Pygments with the notebook CSS class and the chosen lexer. */
  function CustomHighlighter(
    source: string,
    language: Option<string>,
    pygments: (string, Formatter, string) -> string): (html: string)
    ensures exists lexer :: lexer != [] && html == pygments(source, HtmlFormatter(NotebookCssClass), lexer)
  {
    pygments(source, HtmlFormatter(NotebookCssClass), Lexer(language))
  }
}
