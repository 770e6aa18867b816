/**
 * The `thebe` tag from its markup to the selected notebook: the parsed start and
 * end configure SubCell, and the parsed language configures the highlighter.
 * Reading the notebook file, the exporter and the stash are not part of this model.
 */
module Thebe {
  import opened Wrappers
  import opened Text
  import opened Directive
  import opened Slice
  import opened Notebook
  import opened Highlight

  /** The cells the tag keeps from a notebook's cell list, or the error it raises. */
  function SelectedCells(markup: string, cells: seq<Cell>): (r: Result<seq<Cell>, Error>)
    ensures r.Failure? <==> ParseDirective(markup).Failure?
    ensures r.Failure? ==> r.error == ParseDirective(markup).error
  {
    var d :- ParseDirective(markup);
    Success(PySlice(cells, Some(d.start), d.end))
  }

  /**
   * What the exporter's SubCell step yields for the tag: the selected copy and the
   * resources, with the parsed source and the language given to the highlighter.
   */
  datatype Conversion = Conversion(src: string, notebook: NotebookNode, resources: Resources, language: Option<string>)

  /**
   * Parses the markup, configures SubCell with the parsed start and end, and runs
   * it on the notebook `nb` the exporter is given, with `resources` standing for the
   * exporter's own resources dictionary; a syntax error or an unreadable index is
   * raised before anything else.
   */
  method Convert(markup: string, nb: NotebookNode, resources: Resources) returns (r: Result<Conversion, Error>)
    ensures ParseDirective(markup).Failure? ==> r == Failure(ParseDirective(markup).error)
    ensures ParseDirective(markup).Success? ==> r.Success?
    ensures r.Success? ==>
      var d := ParseDirective(markup).value;
      && fresh(r.value.notebook)
      && r.value.notebook.Value() == nb.Value().(cells := SelectedCells(markup, nb.cells).value)
      && r.value.resources == resources
      && r.value.src == d.src
      && r.value.language == d.language
    ensures unchanged(nb)
  {
    var parsed := ParseDirective(markup);
    if parsed.Failure? {
      return Failure(parsed.error);
    }
    var d := parsed.value;
    var subCell := new SubCell.Configured(Some(d.start), d.end);
    var nbc, res := subCell.Preprocess(nb, resources);
    r := Success(Conversion(d.src, nbc, res, d.language));
  }

  /** The highlighter's output for a source text under the markup's language, or the error raised. */
  function HighlightFor(
    markup: string,
    source: string,
    pygments: (string, Formatter, string) -> string): (r: Result<string, Error>)
    ensures r.Failure? <==> ParseDirective(markup).Failure?
  {
    var d :- ParseDirective(markup);
    Success(CustomHighlighter(source, d.language, pygments))
  }

  /**
   * For every text spelled along FORMAT: the tag keeps Python's `cells[start:end]` for
   * the start and end the parse step gives, and raises the parse step's error otherwise.
   */
  lemma SelectedSpelled(l: Layout, cells: seq<Cell>)
    requires Admissible(l) && Maximal(l)
    ensures Interpret(l).Success? ==>
      SelectedCells(Spell(l), cells) == Success(PySlice(cells, Some(Interpret(l).value.start), Interpret(l).value.end))
    ensures Interpret(l).Failure? ==> SelectedCells(Spell(l), cells) == Failure(Interpret(l).error)
  {
    ParseIsInterpret(l);
  }

  /**
   * For every text spelled along FORMAT that parses: Pygments gets the class
   * `highlight-ipynb` and the lexer chosen from the language group as written.
   */
  lemma HighlightSpelled(l: Layout, source: string, pygments: (string, Formatter, string) -> string)
    requires Admissible(l) && Maximal(l) && Interpret(l).Success?
    ensures HighlightFor(Spell(l), source, pygments)
         == Success(pygments(source, HtmlFormatter(NotebookCssClass), Lexer(l.language)))
  {
    ParseIsInterpret(l);
  }

  /** `cells[:]` and no cells clause both keep every cell. */
  lemma FullRangeKeepsAll(t: string, cells: seq<Cell>)
    requires IsSourceToken(t)
    ensures SelectedCells(t, cells) == Success(cells)
    ensures SelectedCells(t + " cells[:]", cells) == Success(cells)
  {
    NoClauseDefaults(t);
    EmptyRangeDefaults(t);
    SliceWhole(cells);
  }

  /** Explicit indices select exactly Python's `cells[a:b]`. */
  lemma ExplicitRangeSelects(t: string, a: int, b: int, cells: seq<Cell>)
    requires IsSourceToken(t)
    ensures SelectedCells(t + " cells[" + IntText(a) + ":" + IntText(b) + "]", cells)
         == Success(PySlice(cells, Some(a), Some(b)))
  {
    var markup := t + " cells[" + IntText(a) + ":" + IntText(b) + "]";
    ExplicitRange(t, a, b);
    assert ParseDirective(markup) == Success(Request(t, a, Some(b), None));
  }

  /** `cells[-2:]` selects the last two cells (all of them when there are fewer). */
  lemma LastTwoCells(t: string, cells: seq<Cell>)
    requires IsSourceToken(t)
    ensures SelectedCells(t + " cells[-2:]", cells) == Success(cells[|cells| - Min(2, |cells|)..])
  {
    assert IntText(-2) == "-2" by {
      assert NatText(2) == "2";
    }
    assert t + " cells[" + IntText(-2) + ":]" == t + " cells[-2:]" by {
      assert " cells[" + "-2" + ":]" == " cells[-2:]";
      Assoc(t, " cells[", "-2");
      Assoc(t, " cells[" + "-2", ":]");
    }
    StartOnly(t, -2);
    SliceLast(cells, 2);
  }

  /** With no language clause, or `language[]`, the highlighter uses `ipython`; otherwise the given language. */
  lemma LanguageReachesHighlighter(t: string, x: string, source: string, pygments: (string, Formatter, string) -> string)
    requires IsSourceToken(t) && All(x, IsLanguageChar)
    ensures HighlightFor(t, source, pygments)
         == Success(pygments(source, HtmlFormatter("highlight-ipynb"), "ipython"))
    ensures HighlightFor(t + " language[" + x + "]", source, pygments)
         == Success(pygments(source, HtmlFormatter("highlight-ipynb"), if x == [] then "ipython" else x))
  {
    NoClauseDefaults(t);
    LanguageClauseKept(t, x);
  }
}
