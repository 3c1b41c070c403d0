/** The document walk of `advanced_replace_text_preserving_style`: every
    body paragraph, then every paragraph of every cell of every row of every
    table, in that nesting order, goes through `replace_in_paragraph`.

    A document is its body paragraphs plus its tables; a paragraph is an
    array of runs that the walk updates in place. The same paragraph may be
    reached more than once (a merged cell is listed once per grid cell it
    covers), and then it is filled once per visit. */
module Template {
  import opened Text
  import opened Substitution

  datatype Cell = Cell(paragraphs: seq<Paragraph>)
  datatype Row = Row(cells: seq<Cell>)
  datatype Table = Table(rows: seq<Row>)
  datatype Document = Document(paragraphs: seq<Paragraph>, tables: seq<Table>)

  /** The paragraphs of a run of cells, in order. */
  function CellParagraphs(cells: seq<Cell>): seq<Paragraph>
  {
    if cells == [] then []
    else CellParagraphs(cells[..|cells| - 1]) + cells[|cells| - 1].paragraphs
  }

  /** The paragraphs of a run of rows, row by row and cell by cell. */
  function RowParagraphs(rows: seq<Row>): seq<Paragraph>
  {
    if rows == [] then []
    else RowParagraphs(rows[..|rows| - 1]) + CellParagraphs(rows[|rows| - 1].cells)
  }

  /** The paragraphs of a run of tables, table by table. */
  function TableParagraphs(tables: seq<Table>): seq<Paragraph>
  {
    if tables == [] then []
    else TableParagraphs(tables[..|tables| - 1]) + RowParagraphs(tables[|tables| - 1].rows)
  }

  /** Every paragraph the walk visits, in the order it visits them. */
  function WalkOrder(doc: Document): (ps: seq<Paragraph>)
    ensures doc.paragraphs <= ps
  {
    doc.paragraphs + TableParagraphs(doc.tables)
  }

  /** The paragraphs of `ps`, as a frame. */
  function Frame(ps: seq<Paragraph>): (f: set<Paragraph>)
    ensures forall i :: 0 <= i < |ps| ==> ps[i] in f
  {
    set p | p in ps
  }

  /** The current runs of each paragraph. */
  function Snapshot(ps: seq<Paragraph>): (s: seq<seq<Run>>)
    reads Frame(ps)
    ensures |s| == |ps| && forall i :: 0 <= i < |ps| ==> s[i] == ps[i][..]
  {
    if ps == [] then [] else Snapshot(ps[..|ps| - 1]) + [ps[|ps| - 1][..]]
  }

  /** A paragraph's runs after `n` passes of replace_in_paragraph. */
  function FilledTimes(runs: seq<Run>, fields: seq<Field>, n: nat): seq<Run>
  {
    if n == 0 then runs else ParagraphFilled(FilledTimes(runs, fields, n - 1), fields)
  }

  /** A paragraph visited `n` times by the walk so far holds its original
      runs filled `n` times. */
  ghost predicate FilledAsVisited(ps: seq<Paragraph>, before: seq<seq<Run>>, visits: multiset<Paragraph>,
                                  fields: seq<Field>)
    requires |before| == |ps|
    reads Frame(ps)
  {
    forall i :: 0 <= i < |ps| ==> ps[i][..] == FilledTimes(before[i], fields, visits[ps[i]])
  }

  /** `advanced_replace_text_preserving_style(doc, replacements)`: a
      paragraph the walk reaches `n` times holds its original runs filled `n`
      times; paragraphs outside the walk are not touched. */
  method FillDocument(doc: Document, fields: seq<Field>)
    modifies Frame(WalkOrder(doc))
    ensures FilledAsVisited(WalkOrder(doc), old(Snapshot(WalkOrder(doc))), multiset(WalkOrder(doc)), fields)
  {
    ghost var ps := WalkOrder(doc);
    ghost var before := Snapshot(ps);
    BodyInWalk(doc);
    ghost var visits := FillParagraphs(ps, before, multiset{}, doc.paragraphs, fields);
    for t := 0 to |doc.tables|
      invariant visits == multiset(doc.paragraphs) + multiset(TableParagraphs(doc.tables[..t]))
      invariant FilledAsVisited(ps, before, visits, fields)
    {
      TableStep(doc, t);
      ghost var prior := visits;
      visits := FillTable(ps, before, visits, doc.tables[t], fields);
      MoreVisits(multiset(doc.paragraphs), prior, visits, TableParagraphs(doc.tables[..t]),
                 RowParagraphs(doc.tables[t].rows), TableParagraphs(doc.tables[..t + 1]));
    }
    assert doc.tables[..|doc.tables|] == doc.tables;
  }

  /** `for row in table.rows: ...` */
  method FillTable(ghost ps: seq<Paragraph>, ghost before: seq<seq<Run>>, ghost visits: multiset<Paragraph>,
                   table: Table, fields: seq<Field>) returns (ghost visits': multiset<Paragraph>)
    requires |before| == |ps|
    requires FilledAsVisited(ps, before, visits, fields)
    modifies Frame(RowParagraphs(table.rows))
    ensures visits' == visits + multiset(RowParagraphs(table.rows))
    ensures FilledAsVisited(ps, before, visits', fields)
  {
    visits' := visits;
    for r := 0 to |table.rows|
      invariant visits' == visits + multiset(RowParagraphs(table.rows[..r]))
      invariant FilledAsVisited(ps, before, visits', fields)
    {
      RowStep(table.rows, r);
      ghost var prior := visits';
      visits' := FillRow(ps, before, visits', table.rows[r], fields);
      MoreVisits(visits, prior, visits', RowParagraphs(table.rows[..r]), CellParagraphs(table.rows[r].cells),
                 RowParagraphs(table.rows[..r + 1]));
    }
    assert table.rows[..|table.rows|] == table.rows;
  }

  /** `for cell in row.cells: ...` */
  method FillRow(ghost ps: seq<Paragraph>, ghost before: seq<seq<Run>>, ghost visits: multiset<Paragraph>,
                 row: Row, fields: seq<Field>) returns (ghost visits': multiset<Paragraph>)
    requires |before| == |ps|
    requires FilledAsVisited(ps, before, visits, fields)
    modifies Frame(CellParagraphs(row.cells))
    ensures visits' == visits + multiset(CellParagraphs(row.cells))
    ensures FilledAsVisited(ps, before, visits', fields)
  {
    visits' := visits;
    for c := 0 to |row.cells|
      invariant visits' == visits + multiset(CellParagraphs(row.cells[..c]))
      invariant FilledAsVisited(ps, before, visits', fields)
    {
      CellStep(row.cells, c);
      ghost var prior := visits';
      visits' := FillParagraphs(ps, before, visits', row.cells[c].paragraphs, fields);
      MoreVisits(visits, prior, visits', CellParagraphs(row.cells[..c]), row.cells[c].paragraphs,
                 CellParagraphs(row.cells[..c + 1]));
    }
    assert row.cells[..|row.cells|] == row.cells;
  }

  /** `for para in paragraphs: replace_in_paragraph(para)`, over the body
      paragraphs or over those of one cell. */
  method FillParagraphs(ghost ps: seq<Paragraph>, ghost before: seq<seq<Run>>, ghost visits: multiset<Paragraph>,
                        paragraphs: seq<Paragraph>, fields: seq<Field>) returns (ghost visits': multiset<Paragraph>)
    requires |before| == |ps|
    requires FilledAsVisited(ps, before, visits, fields)
    modifies Frame(paragraphs)
    ensures visits' == visits + multiset(paragraphs)
    ensures FilledAsVisited(ps, before, visits', fields)
  {
    visits' := visits;
    for q := 0 to |paragraphs|
      invariant visits' == visits + multiset(paragraphs[..q])
      invariant FilledAsVisited(ps, before, visits', fields)
    {
      var para := paragraphs[q];
      Visit(ps, before, visits', para, fields);
      visits' := visits' + multiset{para};
      assert paragraphs[..q + 1] == paragraphs[..q] + [para];
    }
    assert paragraphs[..|paragraphs|] == paragraphs;
  }

  /** One visit of the walk: fill `para` once more. */
  method Visit(ghost ps: seq<Paragraph>, ghost before: seq<seq<Run>>, ghost visits: multiset<Paragraph>,
               para: Paragraph, fields: seq<Field>)
    requires |before| == |ps|
    requires FilledAsVisited(ps, before, visits, fields)
    modifies para
    ensures FilledAsVisited(ps, before, visits + multiset{para}, fields)
  {
    ReplaceInParagraph(para, fields);
  }

  /** Visits counted in two steps add up to the visits of the whole walk. */
  lemma MoreVisits(v0: multiset<Paragraph>, v1: multiset<Paragraph>, v2: multiset<Paragraph>,
                   xs: seq<Paragraph>, ys: seq<Paragraph>, xys: seq<Paragraph>)
    requires v1 == v0 + multiset(xs) && v2 == v1 + multiset(ys)
    requires multiset(xys) == multiset(xs) + multiset(ys)
    ensures v2 == v0 + multiset(xys)
  {
  }

  /** The walk of cells `..c + 1` is that of cells `..c` followed by cell
      `c`, whose paragraphs are among those of the row. */
  lemma CellStep(cells: seq<Cell>, c: nat)
    requires c < |cells|
    ensures CellParagraphs(cells[..c + 1]) == CellParagraphs(cells[..c]) + cells[c].paragraphs
    ensures multiset(CellParagraphs(cells[..c + 1])) == multiset(CellParagraphs(cells[..c])) + multiset(cells[c].paragraphs)
    ensures Frame(cells[c].paragraphs) <= Frame(CellParagraphs(cells))
  {
    assert cells[..c + 1][..c] == cells[..c];
    CellParagraphsSplit(cells, c);
  }

  lemma {:induction false} CellParagraphsSplit(cells: seq<Cell>, c: nat)
    requires c < |cells|
    ensures Frame(cells[c].paragraphs) <= Frame(CellParagraphs(cells))
    decreases |cells|
  {
    if c < |cells| - 1 {
      assert cells[..|cells| - 1][c] == cells[c];
      CellParagraphsSplit(cells[..|cells| - 1], c);
    }
  }

  /** The same for rows within a table. */
  lemma RowStep(rows: seq<Row>, r: nat)
    requires r < |rows|
    ensures RowParagraphs(rows[..r + 1]) == RowParagraphs(rows[..r]) + CellParagraphs(rows[r].cells)
    ensures multiset(RowParagraphs(rows[..r + 1])) == multiset(RowParagraphs(rows[..r])) + multiset(CellParagraphs(rows[r].cells))
    ensures Frame(CellParagraphs(rows[r].cells)) <= Frame(RowParagraphs(rows))
  {
    assert rows[..r + 1][..r] == rows[..r];
    RowParagraphsSplit(rows, r);
  }

  lemma {:induction false} RowParagraphsSplit(rows: seq<Row>, r: nat)
    requires r < |rows|
    ensures Frame(CellParagraphs(rows[r].cells)) <= Frame(RowParagraphs(rows))
    decreases |rows|
  {
    if r < |rows| - 1 {
      assert rows[..|rows| - 1][r] == rows[r];
      RowParagraphsSplit(rows[..|rows| - 1], r);
    }
  }

  /** The body paragraphs are among those the walk lists. */
  lemma BodyInWalk(doc: Document)
    ensures Frame(doc.paragraphs) <= Frame(WalkOrder(doc))
  {
  }

  /** The same for tables within the document. */
  lemma TableStep(doc: Document, t: nat)
    requires t < |doc.tables|
    ensures TableParagraphs(doc.tables[..t + 1]) ==
            TableParagraphs(doc.tables[..t]) + RowParagraphs(doc.tables[t].rows)
    ensures multiset(TableParagraphs(doc.tables[..t + 1])) ==
            multiset(TableParagraphs(doc.tables[..t])) + multiset(RowParagraphs(doc.tables[t].rows))
    ensures Frame(RowParagraphs(doc.tables[t].rows)) <= Frame(WalkOrder(doc))
  {
    assert doc.tables[..t + 1][..t] == doc.tables[..t];
    TableParagraphsSplit(doc.tables, t);
  }

  lemma {:induction false} TableParagraphsSplit(tables: seq<Table>, t: nat)
    requires t < |tables|
    ensures Frame(RowParagraphs(tables[t].rows)) <= Frame(TableParagraphs(tables))
    decreases |tables|
  {
    if t < |tables| - 1 {
      assert tables[..|tables| - 1][t] == tables[t];
      TableParagraphsSplit(tables[..|tables| - 1], t);
    }
  }

  /** A paragraph the walk reaches once ends up filled exactly once. */
  lemma ReachedOnceFilledOnce(ps: seq<Paragraph>, before: seq<seq<Run>>, fields: seq<Field>, i: nat)
    requires |before| == |ps| && i < |ps|
    requires FilledAsVisited(ps, before, multiset(ps), fields)
    requires multiset(ps)[ps[i]] == 1
    ensures ps[i][..] == ParagraphFilled(before[i], fields)
  {
    assert FilledTimes(before[i], fields, 1) == ParagraphFilled(FilledTimes(before[i], fields, 0), fields);
  }

  /** Filling a paragraph whose first fill left no placeholder again changes
      nothing: a merged cell reached several times ends up as if filled once. */
  lemma {:induction false} RefillIsStable(runs: seq<Run>, fields: seq<Field>, n: nat)
    requires n >= 1
    requires forall f :: f in fields ==>
               !Contains(Joined(ParagraphFilled(runs, fields)), Placeholder(f.key))
    ensures FilledTimes(runs, fields, n) == ParagraphFilled(runs, fields)
  {
    if n > 1 {
      RefillIsStable(runs, fields, n - 1);
      ParagraphWithoutPlaceholders(ParagraphFilled(runs, fields), fields);
    }
  }

  /** A cell that a row lists twice (python-docx repeats a merged cell once
      per grid column it spans) has its paragraph reached twice. */
  lemma MergedCellReachedTwice(p: Paragraph, doc: Document)
    requires doc == Document([], [Table([Row([Cell([p]), Cell([p])])])])
    ensures WalkOrder(doc) == [p, p]
    ensures multiset(WalkOrder(doc))[p] == 2
  {
    var cells := [Cell([p]), Cell([p])];
    assert cells[..1][..0] == [];
    assert CellParagraphs(cells[..1]) == [p];
    assert cells[..1] == cells[..|cells| - 1];
    assert CellParagraphs(cells) == [p, p];
    var rows := [Row(cells)];
    assert RowParagraphs(rows) == RowParagraphs(rows[..0]) + [p, p];
    var tables := doc.tables;
    assert TableParagraphs(tables) == TableParagraphs(tables[..0]) + RowParagraphs(rows);
  }
}
