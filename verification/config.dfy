/** The renaming tables of the script's configuration, and the two
    renamings they drive: a simultaneous relabelling of columns and an
    exact-match replacement of text values. */
module Config {
  import opened Cells

  /** `columns_to_rename`: the yield and crop-type labels are swapped in the source tables. */
  const ColumnsToRename: map<string, string> :=
    map["Annual_yield" := "Crop_type", "Crop_type" := "Annual_yield"]

  /** `values_to_rename`: misspelt crop names and their corrections. */
  const ValuesToRename: map<string, string> :=
    map["cassaval" := "cassava", "wheatn" := "wheat", "teaa" := "tea"]

  /** The new name of one label; a label the table does not mention keeps its name. */
  function Relabel(m: map<string, string>, name: string): string {
    if name in m then m[name] else name
  }

  /** Every label renamed at once, each by the table alone. */
  function RenameColumns(labels: seq<string>, m: map<string, string>): (r: seq<string>)
    ensures |r| == |labels|
    ensures forall i :: 0 <= i < |labels| ==> r[i] == Relabel(m, labels[i])
  {
    if labels == [] then []
    else
      var rest := RenameColumns(labels[1..], m);
      assert forall i :: 1 <= i < |labels| ==> labels[i] == labels[1..][i - 1];
      [Relabel(m, labels[0])] + rest
  }

  /** A table that exchanges labels in pairs. */
  ghost predicate IsSwap(m: map<string, string>) {
    forall k :: k in m ==> m[k] in m && m[m[k]] == k
  }

  /** A swapping table undoes itself. */
  lemma {:induction false} SwapRenameSelfInverse(labels: seq<string>, m: map<string, string>)
    requires IsSwap(m)
    ensures RenameColumns(RenameColumns(labels, m), m) == labels
  {
    if labels != [] {
      SwapRenameSelfInverse(labels[1..], m);
    }
  }

  /** Renaming with `columns_to_rename` twice restores the original labels. */
  lemma ColumnsToRenameSelfInverse(labels: seq<string>)
    ensures RenameColumns(RenameColumns(labels, ColumnsToRename), ColumnsToRename) == labels
  {
    assert IsSwap(ColumnsToRename);
    SwapRenameSelfInverse(labels, ColumnsToRename);
  }

  /** Exact-match replacement: a text cell equal to a key is replaced by its
      value; every other cell is left exactly as it was. */
  function ReplaceValues(cells: seq<Cell>, m: map<string, string>): (r: seq<Cell>)
    ensures |r| == |cells|
    ensures forall i :: 0 <= i < |cells| && !(cells[i].Text? && cells[i].text in m) ==> r[i] == cells[i]
    ensures forall i :: 0 <= i < |cells| && cells[i].Text? && cells[i].text in m ==> r[i] == Text(m[cells[i].text])
  {
    if cells == [] then []
    else
      var c := cells[0];
      var rest := ReplaceValues(cells[1..], m);
      assert forall i :: 1 <= i < |cells| ==> cells[i] == cells[1..][i - 1];
      [if c.Text? && c.text in m then Text(m[c.text]) else c] + rest
  }

  /** With no key among the values, replacing a second time changes nothing. */
  lemma ReplaceValuesIdempotent(cells: seq<Cell>, m: map<string, string>)
    requires m.Keys !! m.Values
    ensures ReplaceValues(ReplaceValues(cells, m), m) == ReplaceValues(cells, m)
  {
    var once := ReplaceValues(cells, m);
    var twice := ReplaceValues(once, m);
    forall i | 0 <= i < |cells|
      ensures twice[i] == once[i]
    {
      if cells[i].Text? && cells[i].text in m {
        assert m[cells[i].text] in m.Values;
      }
    }
  }

  /** `values_to_rename` maps no misspelling to another misspelling. */
  lemma ValuesToRenameDisjoint()
    ensures ValuesToRename.Keys !! ValuesToRename.Values
  {
    forall v | v in ValuesToRename.Values
      ensures v !in ValuesToRename.Keys
    {
      var k :| k in ValuesToRename.Keys && ValuesToRename[k] == v;
      assert k == "cassaval" || k == "wheatn" || k == "teaa";
    }
  }

  /** Correcting crop names with `values_to_rename` is idempotent. */
  lemma ValuesToRenameIdempotent(cells: seq<Cell>)
    ensures ReplaceValues(ReplaceValues(cells, ValuesToRename), ValuesToRename) == ReplaceValues(cells, ValuesToRename)
  {
    ValuesToRenameDisjoint();
    ReplaceValuesIdempotent(cells, ValuesToRename);
  }
}
