/**
 * Worked cases of the ingestion rules on concrete text: candidates that `clean_name` rejects,
 * a padded two-word name it cleans, and the names the pair pattern reads off a table row.
 */
module Samples {
  import opened Text
  import opened Keywords
  import opened Classify
  import opened PairScan

  /** A candidate of whitespace only is rejected. */
  lemma CleanNameBlank()
    ensures CleanName("  ") == ""
  {
    RunEndIs("  ", 0, 2, Whitespace);
    assert Collapse("  ") == " ";
    assert Strip(" ", IsEdgeChar) == [];
  }

  /** A bare count has nothing to collapse or strip. */
  lemma NormalizeKeeps42()
    ensures Normalize("42") == "42"
  {
    assert Collapsed("42");
    NormalizeFixesClean("42");
  }

  /** A bare count is not a name. */
  lemma CleanNameDigits()
    ensures CleanName("42") == ""
  {
    NormalizeKeeps42();
    assert IsAllDigits("42");
  }

  /** The column label "No" is not a name. */
  lemma CleanNameLabel()
    ensures CleanName("No") == ""
  {
    assert Collapsed("No");
    NormalizeFixesClean("No");
    assert "No" in NonNameLabels;
  }

  /** The cells of a three-dish table row. */
  function SampleCells(): seq<(string, string)> {
    [("1", "Rice"), ("2", "Bean Soup"), ("3", "Grilled Fish")]
  }

  /** Each cell is a count followed by a dish name. */
  lemma SampleCellsAreCells()
    ensures forall j :: 0 <= j < |SampleCells()| ==> IsCell(SampleCells()[j].0, SampleCells()[j].1)
  {
    assert IsCell("1", "Rice");
    assert IsCell("2", "Bean Soup");
    assert IsCell("3", "Grilled Fish");
  }

  /** The row laid out cell by cell, before the pieces are joined. */
  lemma SampleRowRendered()
    ensures RenderRow(SampleCells()) ==
            "1" + (" " + ("Rice" + (" " + ("2" + (" " + ("Bean Soup" + (" " + ("3" + (" " + "Grilled Fish")))))))))
  {
    var cells := SampleCells();
    assert cells[1..][1..] == cells[2..];
    assert RowRest(cells[2..]) == [];
    assert RenderRow(cells[2..]) == "3" + (" " + "Grilled Fish");
    assert RenderRow(cells[1..]) == "2" + (" " + ("Bean Soup" + (" " + RenderRow(cells[2..]))));
  }

  /** The joined pieces spell the row as it appears on the page. */
  lemma SampleRowPieces()
    ensures "1" + (" " + ("Rice" + (" " + ("2" + (" " + ("Bean Soup" + (" " + ("3" + (" " + "Grilled Fish")))))))))
            == "1 Rice 2 Bean Soup 3 Grilled Fish"
  {
  }

  /** The numbered-pair pattern reads the three dish names off a rendered table row. */
  lemma PairsSampleRow()
    ensures Pairs("1 Rice 2 Bean Soup 3 Grilled Fish") == ["Rice", "Bean Soup", "Grilled Fish"]
  {
    SampleCellsAreCells();
    SampleRowRendered();
    SampleRowPieces();
    PairsOfRow(SampleCells());
    assert CellNames(SampleCells()) == ["Rice", "Bean Soup", "Grilled Fish"];
  }

  /** Whitespace runs shrink to single spaces and the padding goes. */
  lemma CleanNameBeefStew()
    ensures CleanName("  Beef   Stew ") == "Beef Stew"
  {
    CleanNameTwoWords("  ", "Beef", "   ", "Stew", " ");
    BeefStewPieces();
  }

  /** The padded candidate and the cleaned name, written piece by piece. */
  lemma BeefStewPieces()
    ensures "  " + ("Beef" + ("   " + ("Stew" + " "))) == "  Beef   Stew "
    ensures "Beef" + (" " + "Stew") == "Beef Stew"
  {
  }
}
