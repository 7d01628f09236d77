/** `clean_data` of data_management/data_utilities.py, the second copy of the
    cleaning step. It is written out again here, loop and all, and proved to
    return what the copy in data_management/utilities.py returns. */
module DataUtilities {
  import opened Wrappers
  import opened Frames
  import M = DataManagementUtilities

  /** `clean_data`: drop, cast each categorical label in a loop, rename. Its result is
      exactly the other copy's for every input, error or not. */
  method CleanData(data: Frame, info: DataInfo) returns (r: Result<Frame>)
    ensures r == M.Clean(data, info)
  {
    var dropped := M.Drop(data, info.columnsToDrop);
    if dropped.Err? {
      return Err(dropped.error);
    }
    var df := dropped.value;
    var catCols := info.categoricalColumns;
    for i := 0 to |catCols|
      invariant M.CastAll(dropped.value, catCols) == M.CastAll(df, catCols[i..])
    {
      assert catCols[i..][0] == catCols[i] && catCols[i..][1..] == catCols[i + 1..];
      var cast := M.CastCategorical(df, catCols[i]);
      if cast.Err? {
        return Err(cast.error);
      }
      df := cast.value;
    }
    assert catCols[|catCols|..] == [];
    df := M.Rename(df, info.columnRenameMapping);
    return Ok(df);
  }
}
