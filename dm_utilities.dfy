/** `clean_data` of data_management/utilities.py: drop columns, cast the
    categorical columns, rename columns. */
module DataManagementUtilities {
  import opened Wrappers
  import opened Frames

  /** The columns whose label is not among `drop`, in order. */
  function KeptColumns(cols: seq<Column>, drop: seq<string>): (r: seq<Column>)
    ensures |r| <= |cols|
    ensures forall c :: c in r <==> c in cols && c.name !in drop
  {
    if cols == [] then []
    else (if cols[0].name in drop then [] else [cols[0]]) + KeptColumns(cols[1..], drop)
  }

  /** `DataFrame.drop(columns=...)`: every column carrying one of the labels goes;
      a label that is not a column raises KeyError listing the missing labels. */
  function Drop(f: Frame, drop: seq<string>): (r: Result<Frame>)
    ensures r.Err? <==> exists d :: d in drop && d !in Names(f.columns)
    ensures r.Err? ==> r.error == MissingKeys(NotIn(drop, Names(f.columns))) && r.error.PythonClass() == KeyError
    ensures r.Ok? ==> r.value.height == f.height
    ensures r.Ok? ==> forall d :: d in drop ==> d !in Names(r.value.columns)
    ensures r.Ok? ==> forall c :: c in r.value.columns <==> c in f.columns && c.name !in drop
  {
    var missing := NotIn(drop, Names(f.columns));
    if missing != [] then
      assert missing[0] in drop && missing[0] !in Names(f.columns);
      Err(MissingKeys(missing))
    else
      var kept := KeptColumns(f.columns, drop);
      Ok(Frame(kept, f.height))
  }

  /** Mark every column labelled `name` as categorical. */
  function MarkCategorical(cols: seq<Column>, name: string): (r: seq<Column>)
    ensures |r| == |cols|
    ensures forall j :: 0 <= j < |cols| ==>
      r[j] == Column(cols[j].name, cols[j].categorical || cols[j].name == name, cols[j].cells)
  {
    seq(|cols|, j requires 0 <= j < |cols| =>
      Column(cols[j].name, cols[j].categorical || cols[j].name == name, cols[j].cells))
  }

  /** `df[name] = df[name].astype(pd.CategoricalDtype())`: KeyError when no column carries the label. */
  function CastCategorical(f: Frame, name: string): (r: Result<Frame>)
    ensures r.Err? <==> name !in Names(f.columns)
    ensures r.Err? ==> r.error == MissingKeys([name])
    ensures r.Ok? ==> Names(r.value.columns) == Names(f.columns) && r.value.height == f.height
  {
    if name !in Names(f.columns) then Err(MissingKeys([name]))
    else Ok(Frame(MarkCategorical(f.columns, name), f.height))
  }

  /** The categorical casts of the loop, in order; the first missing label raises. */
  function CastAll(f: Frame, names: seq<string>): Result<Frame>
    decreases |names|
  {
    if names == [] then Ok(f)
    else match CastCategorical(f, names[0])
      case Err(e) => Err(e)
      case Ok(g) => CastAll(g, names[1..])
  }

  /** The label a column gets from `DataFrame.rename(columns=mapping)`: unmapped labels stay. */
  function RenameLabel(name: string, mapping: map<string, string>): string {
    if name in mapping then mapping[name] else name
  }

  /** `DataFrame.rename(columns=mapping)`: mapping keys that are not columns are ignored. */
  function Rename(f: Frame, mapping: map<string, string>): (r: Frame)
    ensures r.height == f.height && |r.columns| == |f.columns|
    ensures forall j :: 0 <= j < |f.columns| ==>
      r.columns[j] == Column(RenameLabel(f.columns[j].name, mapping), f.columns[j].categorical, f.columns[j].cells)
  {
    Frame(seq(|f.columns| , j requires 0 <= j < |f.columns| =>
      Column(RenameLabel(f.columns[j].name, mapping), f.columns[j].categorical, f.columns[j].cells)),
      f.height)
  }

  /** What `clean_data` returns: drop, then the categorical casts, then the rename. */
  function Clean(raw: Frame, info: DataInfo): Result<Frame> {
    match Drop(raw, info.columnsToDrop)
    case Err(e) => Err(e)
    case Ok(d) =>
      match CastAll(d, info.categoricalColumns)
      case Err(e) => Err(e)
      case Ok(c) => Ok(Rename(c, info.columnRenameMapping))
  }

  /** `clean_data`: the working frame's columns are cast one label at a time in a loop. */
  method CleanData(raw: Frame, info: DataInfo) returns (r: Result<Frame>)
    ensures r == Clean(raw, info)
  {
    var dropped := Drop(raw, info.columnsToDrop);
    if dropped.Err? {
      return Err(dropped.error);
    }
    var df := dropped.value;
    var cats := info.categoricalColumns;
    for i := 0 to |cats|
      invariant CastAll(dropped.value, cats) == CastAll(df, cats[i..])
    {
      assert cats[i..][0] == cats[i] && cats[i..][1..] == cats[i + 1..];
      var cast := CastCategorical(df, cats[i]);
      if cast.Err? {
        return Err(cast.error);
      }
      df := cast.value;
    }
    assert cats[|cats|..] == [];
    return Ok(Rename(df, info.columnRenameMapping));
  }

  /** The casts succeed exactly when every label is a column; they mark the columns
      carrying one of the labels as categorical and change nothing else. */
  lemma {:induction false} CastAllResult(f: Frame, names: seq<string>)
    ensures CastAll(f, names).Ok? <==> forall c :: c in names ==> c in Names(f.columns)
    ensures CastAll(f, names).Err? ==> exists c :: c in names && CastAll(f, names).error == MissingKeys([c])
    ensures CastAll(f, names).Ok? ==>
      var g := CastAll(f, names).value;
      g.height == f.height && |g.columns| == |f.columns|
      && forall j :: 0 <= j < |f.columns| ==>
           g.columns[j] == Column(f.columns[j].name, f.columns[j].categorical || f.columns[j].name in names, f.columns[j].cells)
    decreases |names|
  {
    if names != [] {
      var cast := CastCategorical(f, names[0]);
      if cast.Ok? {
        CastAllResult(cast.value, names[1..]);
        assert forall c :: c in names <==> c == names[0] || c in names[1..];
      }
    }
  }

  /** `clean_data` succeeds exactly when every label to drop is a column and every categorical
      label names a column that survives the drop. The result then holds the surviving columns
      in their order, renamed by the mapping, categorical when their original label was listed,
      with their cells and the row count unchanged. */
  lemma CleanResult(raw: Frame, info: DataInfo)
    ensures var kept := KeptColumns(raw.columns, info.columnsToDrop);
      var r := Clean(raw, info);
      && (r.Ok? <==>
           (forall d :: d in info.columnsToDrop ==> d in Names(raw.columns))
           && (forall c :: c in info.categoricalColumns ==> c in Names(kept)))
      && (r.Err? ==> r.error.MissingKeys? && r.error.PythonClass() == KeyError)
      && (r.Ok? ==>
           r.value.height == raw.height && |r.value.columns| == |kept|
           && forall j :: 0 <= j < |kept| ==>
                r.value.columns[j] == Column(RenameLabel(kept[j].name, info.columnRenameMapping),
                                             kept[j].categorical || kept[j].name in info.categoricalColumns,
                                             kept[j].cells))
  {
    var d := Drop(raw, info.columnsToDrop);
    if d.Ok? {
      CastAllResult(d.value, info.categoricalColumns);
    }
  }

  /** Each categorical label ends up, under its renamed label, on a categorical column. */
  lemma CleanCategoricalRenamed(raw: Frame, info: DataInfo, c: string)
    requires Clean(raw, info).Ok? && c in info.categoricalColumns
    ensures exists j ::
      && 0 <= j < |Clean(raw, info).value.columns|
      && Clean(raw, info).value.columns[j].name == RenameLabel(c, info.columnRenameMapping)
      && Clean(raw, info).value.columns[j].categorical
  {
    CleanResult(raw, info);
    var kept := KeptColumns(raw.columns, info.columnsToDrop);
    var j :| 0 <= j < |kept| && Names(kept)[j] == c;
    assert Clean(raw, info).value.columns[j].name == RenameLabel(c, info.columnRenameMapping);
  }

  /** No label to drop survives, unless the rename mapping produces it again. */
  lemma CleanDroppedAbsent(raw: Frame, info: DataInfo, d: string)
    requires Clean(raw, info).Ok? && d in info.columnsToDrop
    requires forall k :: k in info.columnRenameMapping ==> info.columnRenameMapping[k] != d
    ensures d !in Names(Clean(raw, info).value.columns)
  {
    CleanResult(raw, info);
    var kept := KeptColumns(raw.columns, info.columnsToDrop);
  }

  /** A label the mapping does not mention keeps its name. */
  lemma CleanUnmappedKept(raw: Frame, info: DataInfo)
    requires Clean(raw, info).Ok?
    ensures var kept := KeptColumns(raw.columns, info.columnsToDrop);
      forall j :: 0 <= j < |kept| && kept[j].name !in info.columnRenameMapping ==>
        j < |Clean(raw, info).value.columns| && Clean(raw, info).value.columns[j].name == kept[j].name
  {
    CleanResult(raw, info);
  }

  /** Cleaning keeps every column of a well-formed frame at the frame's height. */
  lemma CleanValid(raw: Frame, info: DataInfo)
    requires Valid(raw) && Clean(raw, info).Ok?
    ensures Valid(Clean(raw, info).value)
  {
    CleanResult(raw, info);
    var kept := KeptColumns(raw.columns, info.columnsToDrop);
    forall j | 0 <= j < |kept| ensures |kept[j].cells| == raw.height {
      assert kept[j] in raw.columns;
    }
  }
}
