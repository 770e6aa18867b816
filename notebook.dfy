/**
 * The notebook node and the SubCell preprocessor, which selects a slice of a
 * notebook's cells on a deep copy and leaves the given notebook untouched.
 */
module Notebook {
  import opened Wrappers
  import opened Slice

  datatype CellType = Code | Markdown | Raw

  /** One cell: its kind, its source text, its recorded outputs and its own metadata. */
  datatype Cell = Cell(cellType: CellType, source: string, outputs: seq<string>, metadata: map<string, string>)

  /** The exporter's auxiliary resources, passed through by preprocessors. */
  type Resources = map<string, string>

  /** The content of a notebook node as a value: what a deep copy duplicates. */
  datatype Document = Document(cells: seq<Cell>, metadata: map<string, string>, nbformat: nat, nbformatMinor: nat)

  /** A notebook in the version-4 layout: a flat cell list plus notebook-level data. */
  class NotebookNode {
    var cells: seq<Cell>
    var metadata: map<string, string>
    var nbformat: nat
    var nbformatMinor: nat

    function Value(): Document
      reads this
    {
      Document(cells, metadata, nbformat, nbformatMinor)
    }

    constructor (d: Document)
      ensures Value() == d
    {
      cells := d.cells;
      metadata := d.metadata;
      nbformat := d.nbformat;
      nbformatMinor := d.nbformatMinor;
    }

    /** copy.deepcopy: a new node with equal content; cells are values, so nothing is shared. */
    method DeepCopy() returns (copy: NotebookNode)
      ensures fresh(copy) && copy.Value() == Value()
    {
      copy := new NotebookNode(Value());
    }
  }

  /** The preprocessor that keeps the cells `start:end` of a notebook. */
  class SubCell {
    var start: Option<int>
    var end: Option<int>

    /** The traits' defaults: the first cell on, to the end. */
    constructor ()
      ensures start == Some(0) && end == None
    {
      start := Some(0);
      end := None;
    }

    /** The traits as set from the exporter's configuration. */
    constructor Configured(start: Option<int>, end: Option<int>)
      ensures this.start == start && this.end == end
    {
      this.start := start;
      this.end := end;
    }

    /**
     * Deep-copies `nb`, replaces the copy's cells by `cells[start:end]` and returns the
     * copy with the resources unchanged; `nb` itself is not modified.
     */
    method Preprocess(nb: NotebookNode, resources: Resources) returns (nbc: NotebookNode, res: Resources)
      ensures fresh(nbc) && unchanged(nb)
      ensures nbc.Value() == nb.Value().(cells := PySlice(nb.cells, start, end))
      ensures res == resources
    {
      nbc := nb.DeepCopy();
      nbc.cells := PySlice(nbc.cells, start, end);
      res := resources;
    }
  }
}
