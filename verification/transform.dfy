/** transformData: for every column named in the schema, convert it to the schema's type
    unless it already has that type. The conversions themselves (`pd.to_datetime`,
    `astype`) are a parameter: a partial function on cells, whose failure aborts the call. */
module Transform {
  import opened Wrappers
  import opened Records

  /** The column dtypes a frame can carry here. */
  datatype DType = Float64 | Int64 | Object | StringDtype | DateTime64

  /** The name a dtype compares equal to. */
  function DTypeName(d: DType): string
  {
    match d
    case Float64 => "float64"
    case Int64 => "int64"
    case Object => "object"
    case StringDtype => "string"
    case DateTime64 => "datetime64[ns]"
  }

  /** The dtype `astype(name)` converts to, if `name` names one. */
  function ParseDType(name: string): (r: Option<DType>)
    ensures r.Some? ==> DTypeName(r.value) == name
    ensures r.None? ==> forall d: DType :: DTypeName(d) != name
  {
    if name == "float64" then Some(Float64)
    else if name == "int64" then Some(Int64)
    else if name == "object" then Some(Object)
    else if name == "string" then Some(StringDtype)
    else if name == "datetime64[ns]" then Some(DateTime64)
    else None
  }

  /** A cell: null, or a value. */
  type Cell = Option<Value>

  /** One column of a frame. */
  datatype Series = Series(name: string, dtype: DType, cells: seq<Cell>)

  /** The conversion applied to a column. */
  datatype Conversion = ToDateTime(format: string) | AsType(target: DType)

  /** The format the schema's "datetime" columns are parsed with. */
  const DateFormat: string := "%d-%m-%Y %H:%M"

  /** The schema of the retail data set, in dictionary order. */
  const DataTypes: seq<(string, string)> := [
    ("InvoiceNo", "float64"),
    ("StockCode", "string"),
    ("Description", "string"),
    ("Quantity", "float64"),
    ("InvoiceDate", "datetime"),
    ("UnitPrice", "float64"),
    ("CustomerID", "float64"),
    ("Country", "string")
  ]

  datatype TransformError =
    | MissingColumn(name: string)       // `dataframe[column]` on an absent column
    | UnknownType(typeName: string)     // `astype` of a name that is no dtype
    | ConversionFailed(column: string)  // a cell the conversion rejects
    | AmbiguousColumn(name: string)     // `dataframe[column]` on a name two columns share: a frame has no `.dtype`

  /** The conversion a schema entry asks for: "datetime" parses with the fixed format,
      anything else is an `astype`. */
  function ConversionFor(target: string): Option<Conversion>
  {
    if target == "datetime" then Some(ToDateTime(DateFormat))
    else match ParseDType(target)
      case None => None
      case Some(d) => Some(AsType(d))
  }

  /** The dtype a column has after its conversion. */
  function Produces(c: Conversion): DType
  {
    match c
    case ToDateTime(_) => DateTime64
    case AsType(d) => d
  }

  /** Converting a column cell by cell; one failed cell fails the column. */
  function ConvertCells(c: Conversion, cells: seq<Cell>, convert: (Conversion, Cell) -> Option<Cell>): (r: Option<seq<Cell>>)
    ensures r.Some? ==> |r.value| == |cells| && forall i :: 0 <= i < |cells| ==> convert(c, cells[i]) == Some(r.value[i])
    ensures r.None? <==> exists i :: 0 <= i < |cells| && convert(c, cells[i]).None?
    decreases |cells|
  {
    if |cells| == 0 then Some([])
    else match convert(c, cells[0])
      case None => None
      case Some(x) =>
        match ConvertCells(c, cells[1..], convert)
        case None =>
          assert forall i :: 0 <= i < |cells| - 1 ==> cells[1..][i] == cells[i + 1];
          None
        case Some(rest) => Some([x] + rest)
  }

  /** One schema entry applied to one column: `if columnTypes[column] != dataframe[column].dtype`. */
  function ConvertSeries(s: Series, target: string, convert: (Conversion, Cell) -> Option<Cell>): (r: Result<Series, TransformError>)
    ensures target == DTypeName(s.dtype) ==> r == Success(s)
    ensures target != DTypeName(s.dtype) ==>
      && (r.Failure? && r.error.UnknownType? <==> ConversionFor(target).None?)
      && (r.Failure? && r.error.ConversionFailed? <==>
            ConversionFor(target).Some? && ConvertCells(ConversionFor(target).value, s.cells, convert).None?)
      && (r.Success? ==>
            && r.value.name == s.name
            && r.value.dtype == Produces(ConversionFor(target).value)
            && |r.value.cells| == |s.cells|
            && forall i :: 0 <= i < |s.cells| ==> convert(ConversionFor(target).value, s.cells[i]) == Some(r.value.cells[i]))
    ensures r.Failure? ==> r.error == UnknownType(target) || r.error == ConversionFailed(s.name)
  {
    if target == DTypeName(s.dtype) then Success(s)
    else match ConversionFor(target)
      case None => Failure(UnknownType(target))
      case Some(c) =>
        match ConvertCells(c, s.cells, convert)
        case None => Failure(ConversionFailed(s.name))
        case Some(cells) => Success(Series(s.name, Produces(c), cells))
  }

  /** The position of the first column named `name`. */
  function FindColumn(frame: seq<Series>, name: string): (r: Option<nat>)
    ensures r.Some? ==> r.value < |frame| && frame[r.value].name == name
    ensures r.Some? ==> forall j :: 0 <= j < r.value ==> frame[j].name != name
    ensures r.None? <==> forall i :: 0 <= i < |frame| ==> frame[i].name != name
    decreases |frame|
  {
    if |frame| == 0 then None
    else if frame[0].name == name then Some(0)
    else match FindColumn(frame[1..], name)
      case None => None
      case Some(i) => Some(i + 1)
  }

  /** `dataframe[column]` read as a single column: the column of that name when there is
      exactly one, otherwise the error the source's `.dtype` access ends in. */
  function ColumnIndex(frame: seq<Series>, name: string): (r: Result<nat, TransformError>)
    ensures r.Success? ==> r.value < |frame| && frame[r.value].name == name
    ensures r.Success? ==> forall j :: 0 <= j < |frame| && frame[j].name == name ==> j == r.value
    ensures r == Failure(MissingColumn(name)) <==> forall i :: 0 <= i < |frame| ==> frame[i].name != name
    ensures r == Failure(AmbiguousColumn(name)) <==>
      exists i, j :: 0 <= i < j < |frame| && frame[i].name == name && frame[j].name == name
    ensures r.Failure? ==> r.error == MissingColumn(name) || r.error == AmbiguousColumn(name)
  {
    match FindColumn(frame, name)
    case None => Failure(MissingColumn(name))
    case Some(i) =>
      var later := FindColumn(frame[i + 1..], name);
      if later.Some? then
        assert frame[i + 1 + later.value].name == name;
        Failure(AmbiguousColumn(name))
      else
        assert forall j :: i < j < |frame| ==> frame[i + 1..][j - i - 1] == frame[j];
        Success(i)
  }

  /** Column names of a frame are distinct. */
  predicate DistinctNames(frame: seq<Series>)
  {
    forall i, j :: 0 <= i < j < |frame| ==> frame[i].name != frame[j].name
  }

  /** The schema names each column at most once (it is a dictionary). */
  predicate DistinctKeys(columnTypes: seq<(string, string)>)
  {
    forall i, j :: 0 <= i < j < |columnTypes| ==> columnTypes[i].0 != columnTypes[j].0
  }

  /** transformData: the schema entries in order, each rewriting its column in place. */
  function TransformData(frame: seq<Series>, columnTypes: seq<(string, string)>,
                         convert: (Conversion, Cell) -> Option<Cell>): Result<seq<Series>, TransformError>
    decreases |columnTypes|
  {
    if |columnTypes| == 0 then Success(frame)
    else
      var (name, target) := columnTypes[0];
      match ColumnIndex(frame, name)
      case Failure(e) => Failure(e)
      case Success(i) =>
        match ConvertSeries(frame[i], target, convert)
        case Failure(e) => Failure(e)
        case Success(s) => TransformData(frame[i := s], columnTypes[1..], convert)
  }

  /** The schema loop as the source writes it: a `for` over the entries that rewrites the
      frame in place and stops at the first error. */
  method TransformInPlace(frame: seq<Series>, columnTypes: seq<(string, string)>,
                          convert: (Conversion, Cell) -> Option<Cell>) returns (r: Result<seq<Series>, TransformError>)
    ensures r == TransformData(frame, columnTypes, convert)
  {
    var df := frame;
    var k := 0;
    while k < |columnTypes|
      invariant 0 <= k <= |columnTypes|
      invariant TransformData(df, columnTypes[k..], convert) == TransformData(frame, columnTypes, convert)
    {
      assert columnTypes[k..][1..] == columnTypes[k + 1..];
      var (name, target) := columnTypes[k];
      var i := ColumnIndex(df, name);
      if i.Failure? {
        return Failure(i.error);
      }
      var converted := ConvertSeries(df[i.value], target, convert);
      if converted.Failure? {
        return Failure(converted.error);
      }
      df := df[i.value := converted.value];
      k := k + 1;
    }
    assert columnTypes[k..] == [];
    return Success(df);
  }

  // ---------------------------------------------------------------------------------------
  // Properties

  /** The target the schema gives a column, if it lists it. */
  function TargetOf(columnTypes: seq<(string, string)>, name: string): (r: Option<string>)
    ensures r.None? <==> forall k :: 0 <= k < |columnTypes| ==> columnTypes[k].0 != name
    ensures r.Some? ==> exists k :: 0 <= k < |columnTypes| && columnTypes[k] == (name, r.value)
    decreases |columnTypes|
  {
    if |columnTypes| == 0 then None
    else if columnTypes[0].0 == name then Some(columnTypes[0].1)
    else
      var r := TargetOf(columnTypes[1..], name);
      assert forall k :: 1 <= k < |columnTypes| ==> columnTypes[1..][k - 1] == columnTypes[k];
      r
  }

  /** What the schema does to one column, on its own. */
  function ColumnResult(s: Series, columnTypes: seq<(string, string)>,
                        convert: (Conversion, Cell) -> Option<Cell>): Result<Series, TransformError>
  {
    match TargetOf(columnTypes, s.name)
    case None => Success(s)
    case Some(target) => ConvertSeries(s, target, convert)
  }

  /** Every schema entry names a column of the frame. */
  predicate AllListedPresent(frame: seq<Series>, columnTypes: seq<(string, string)>)
  {
    forall k :: 0 <= k < |columnTypes| ==> HasColumn(frame, columnTypes[k].0)
  }

  predicate HasColumn(frame: seq<Series>, name: string)
  {
    exists i :: 0 <= i < |frame| && frame[i].name == name
  }

  /** A success keeps the columns, their names and order, and the number of rows of each. */
  lemma {:induction false} TransformShape(frame: seq<Series>, columnTypes: seq<(string, string)>,
                                         convert: (Conversion, Cell) -> Option<Cell>)
    ensures var r := TransformData(frame, columnTypes, convert);
      r.Success? ==>
        && |r.value| == |frame|
        && forall i :: 0 <= i < |frame| ==> r.value[i].name == frame[i].name && |r.value[i].cells| == |frame[i].cells|
    decreases |columnTypes|
  {
    if |columnTypes| > 0 {
      var (name, target) := columnTypes[0];
      var i := ColumnIndex(frame, name);
      if i.Success? && ConvertSeries(frame[i.value], target, convert).Success? {
        var s := ConvertSeries(frame[i.value], target, convert).value;
        TransformShape(frame[i.value := s], columnTypes[1..], convert);
      }
    }
  }

  /** A column the schema does not list comes back as it was. */
  lemma {:induction false} UnlistedUntouched(frame: seq<Series>, columnTypes: seq<(string, string)>,
                                            convert: (Conversion, Cell) -> Option<Cell>, i: nat)
    requires i < |frame|
    requires TargetOf(columnTypes, frame[i].name).None?
    ensures var r := TransformData(frame, columnTypes, convert);
      r.Success? ==> |r.value| == |frame| && r.value[i] == frame[i]
    decreases |columnTypes|
  {
    TransformShape(frame, columnTypes, convert);
    if |columnTypes| > 0 {
      var (name, target) := columnTypes[0];
      var j := ColumnIndex(frame, name);
      if j.Success? && ConvertSeries(frame[j.value], target, convert).Success? {
        var s := ConvertSeries(frame[j.value], target, convert).value;
        assert columnTypes[0].0 != frame[i].name;
        assert TargetOf(columnTypes[1..], frame[i].name).None? by {
          assert forall k :: 0 <= k < |columnTypes[1..]| ==> columnTypes[1..][k] == columnTypes[k + 1];
        }
        UnlistedUntouched(frame[j.value := s], columnTypes[1..], convert, i);
      }
    }
  }

  /** A schema entry whose column is absent makes the call fail, and a missing-column error
      always names such an entry. */
  lemma {:induction false} MissingColumnFails(frame: seq<Series>, columnTypes: seq<(string, string)>,
                                             convert: (Conversion, Cell) -> Option<Cell>)
    ensures !AllListedPresent(frame, columnTypes) ==> TransformData(frame, columnTypes, convert).Failure?
    ensures var r := TransformData(frame, columnTypes, convert);
      r.Failure? && r.error.MissingColumn? ==>
        && (exists k :: 0 <= k < |columnTypes| && columnTypes[k].0 == r.error.name)
        && forall i :: 0 <= i < |frame| ==> frame[i].name != r.error.name
    decreases |columnTypes|
  {
    if |columnTypes| > 0 {
      var (name, target) := columnTypes[0];
      var j := ColumnIndex(frame, name);
      if j.Success? && ConvertSeries(frame[j.value], target, convert).Success? {
        var s := ConvertSeries(frame[j.value], target, convert).value;
        var f := frame[j.value := s];
        MissingColumnFails(f, columnTypes[1..], convert);
        PresentAfterStep(frame, columnTypes, j.value, s);
        MissingErrorAfterStep(frame, columnTypes, f, TransformData(f, columnTypes[1..], convert));
      }
    }
  }

  /** A missing-column error of the rest of the schema, run on the frame after the first
      step, is one of the whole schema on the frame before it. */
  lemma MissingErrorAfterStep(frame: seq<Series>, columnTypes: seq<(string, string)>, f: seq<Series>,
                              r: Result<seq<Series>, TransformError>)
    requires |columnTypes| > 0 && |f| == |frame| && forall i :: 0 <= i < |frame| ==> f[i].name == frame[i].name
    requires r.Failure? && r.error.MissingColumn? ==>
      && (exists k :: 0 <= k < |columnTypes[1..]| && columnTypes[1..][k].0 == r.error.name)
      && forall i :: 0 <= i < |f| ==> f[i].name != r.error.name
    ensures r.Failure? && r.error.MissingColumn? ==>
      && (exists k :: 0 <= k < |columnTypes| && columnTypes[k].0 == r.error.name)
      && forall i :: 0 <= i < |frame| ==> frame[i].name != r.error.name
  {
    if r.Failure? && r.error.MissingColumn? {
      var k :| 0 <= k < |columnTypes[1..]| && columnTypes[1..][k].0 == r.error.name;
      assert columnTypes[k + 1].0 == r.error.name;
    }
  }

  /** With distinct names on both sides, the schema loop is a map over the columns: it
      succeeds exactly when every listed column is present and converts, and then each column
      is what the schema does to it on its own. */
  lemma {:induction false} TransformIsColumnwise(frame: seq<Series>, columnTypes: seq<(string, string)>,
                                                convert: (Conversion, Cell) -> Option<Cell>)
    requires DistinctNames(frame) && DistinctKeys(columnTypes)
    ensures var r := TransformData(frame, columnTypes, convert);
      && (r.Success? <==> AllListedPresent(frame, columnTypes) &&
                          forall i :: 0 <= i < |frame| ==> ColumnResult(frame[i], columnTypes, convert).Success?)
      && (r.Success? ==> |r.value| == |frame| &&
                         forall i :: 0 <= i < |frame| ==> r.value[i] == ColumnResult(frame[i], columnTypes, convert).value)
    decreases |columnTypes|
  {
    MissingColumnFails(frame, columnTypes, convert);
    if |columnTypes| > 0 {
      var (name, target) := columnTypes[0];
      var j := ColumnIndex(frame, name);
      if j.Success? {
        var c := ConvertSeries(frame[j.value], target, convert);
        if c.Success? {
          ColumnwiseStep(frame, columnTypes, convert, j.value, c.value);
          TransformIsColumnwise(frame[j.value := c.value], columnTypes[1..], convert);
        } else {
          FirstColumnResult(frame, columnTypes, convert, j.value);
        }
      }
    }
  }

  lemma FirstColumnResult(frame: seq<Series>, columnTypes: seq<(string, string)>,
                          convert: (Conversion, Cell) -> Option<Cell>, j: nat)
    requires |columnTypes| > 0 && j < |frame| && frame[j].name == columnTypes[0].0
    ensures ColumnResult(frame[j], columnTypes, convert) == ConvertSeries(frame[j], columnTypes[0].1, convert)
  {
  }

  /** After the first schema entry converts its column, the rest of the schema does to each
      column what the whole schema did. */
  lemma ColumnwiseStep(frame: seq<Series>, columnTypes: seq<(string, string)>,
                       convert: (Conversion, Cell) -> Option<Cell>, j: nat, s: Series)
    requires DistinctNames(frame) && DistinctKeys(columnTypes)
    requires |columnTypes| > 0 && j < |frame| && frame[j].name == columnTypes[0].0
    requires ConvertSeries(frame[j], columnTypes[0].1, convert) == Success(s)
    ensures var f := frame[j := s];
      && DistinctNames(f) && DistinctKeys(columnTypes[1..])
      && (AllListedPresent(f, columnTypes[1..]) <==> AllListedPresent(frame, columnTypes))
      && forall i :: 0 <= i < |frame| ==> ColumnResult(f[i], columnTypes[1..], convert) == ColumnResult(frame[i], columnTypes, convert)
  {
    var name := columnTypes[0].0;
    var rest := columnTypes[1..];
    var f := frame[j := s];
    assert forall k :: 0 <= k < |rest| ==> rest[k] == columnTypes[k + 1];
    assert forall i :: 0 <= i < |f| ==> f[i].name == frame[i].name;
    forall i | 0 <= i < |frame|
      ensures ColumnResult(f[i], rest, convert) == ColumnResult(frame[i], columnTypes, convert)
    {
      if i == j {
        assert TargetOf(rest, name).None?;
      } else {
        assert TargetOf(columnTypes, frame[i].name) == TargetOf(rest, frame[i].name);
      }
    }
    PresentAfterStep(frame, columnTypes, j, s);
  }

  /** Replacing the column of the first schema entry by one of the same name keeps every
      remaining entry's column present. */
  lemma PresentAfterStep(frame: seq<Series>, columnTypes: seq<(string, string)>, j: nat, s: Series)
    requires |columnTypes| > 0 && j < |frame| && frame[j].name == columnTypes[0].0 && s.name == frame[j].name
    ensures AllListedPresent(frame[j := s], columnTypes[1..]) <==> AllListedPresent(frame, columnTypes)
  {
    var rest := columnTypes[1..];
    var f := frame[j := s];
    assert forall i :: 0 <= i < |f| ==> f[i].name == frame[i].name;
    if AllListedPresent(f, rest) {
      forall k | 0 <= k < |columnTypes| ensures HasColumn(frame, columnTypes[k].0) {
        if k == 0 {
          assert frame[j].name == columnTypes[0].0;
        } else {
          assert rest[k - 1] == columnTypes[k];
          var i :| 0 <= i < |f| && f[i].name == rest[k - 1].0;
          assert frame[i].name == columnTypes[k].0;
        }
      }
    }
    if AllListedPresent(frame, columnTypes) {
      forall k | 0 <= k < |rest| ensures HasColumn(f, rest[k].0) {
        var i :| 0 <= i < |frame| && frame[i].name == columnTypes[k + 1].0;
        assert f[i].name == rest[k].0;
      }
    }
  }

  /** A listed column that already has its target type comes back as it was. */
  lemma AlreadyTypedUntouched(frame: seq<Series>, columnTypes: seq<(string, string)>,
                              convert: (Conversion, Cell) -> Option<Cell>, i: nat)
    requires DistinctNames(frame) && DistinctKeys(columnTypes)
    requires i < |frame| && TargetOf(columnTypes, frame[i].name) == Some(DTypeName(frame[i].dtype))
    ensures var r := TransformData(frame, columnTypes, convert);
      r.Success? ==> |r.value| == |frame| && r.value[i] == frame[i]
  {
    TransformIsColumnwise(frame, columnTypes, convert);
  }

  /** After a success, a listed column is what converting it to its target gives: its dtype
      is the target's, and its cells are the conversions of the old cells when its type
      changed. */
  lemma ListedColumnConverted(frame: seq<Series>, columnTypes: seq<(string, string)>,
                              convert: (Conversion, Cell) -> Option<Cell>, i: nat, t: string)
    requires DistinctNames(frame) && DistinctKeys(columnTypes)
    requires i < |frame| && TargetOf(columnTypes, frame[i].name) == Some(t)
    ensures var r := TransformData(frame, columnTypes, convert);
      r.Success? ==>
        && |r.value| == |frame|
        && r.value[i].name == frame[i].name
        && (ParseDType(t).Some? ==> DTypeName(r.value[i].dtype) == t)
        && (t == "datetime" ==> r.value[i].dtype == DateTime64)
        && (t != DTypeName(frame[i].dtype) ==>
              && ConversionFor(t).Some?
              && |r.value[i].cells| == |frame[i].cells|
              && forall n :: 0 <= n < |frame[i].cells| ==>
                   convert(ConversionFor(t).value, frame[i].cells[n]) == Some(r.value[i].cells[n]))
  {
    TransformIsColumnwise(frame, columnTypes, convert);
    NoDTypeNamedDatetime();
  }

  lemma NoDTypeNamedDatetime()
    ensures forall d: DType :: DTypeName(d) != "datetime"
    ensures ParseDType("datetime").None?
  {
  }

  /** A column whose dtype already carries its target's name converts to itself. */
  lemma SettledColumnStays(s: Series, columnTypes: seq<(string, string)>, convert: (Conversion, Cell) -> Option<Cell>)
    requires TargetOf(columnTypes, s.name).Some? ==> TargetOf(columnTypes, s.name).value == DTypeName(s.dtype)
    ensures ColumnResult(s, columnTypes, convert) == Success(s)
  {
  }

  /** The date parse accepts what it produced and gives it back: parsing is done once and for
      all. This is a property of `pd.to_datetime`, which the model does not define. */
  ghost predicate DateParseSettles(convert: (Conversion, Cell) -> Option<Cell>)
  {
    forall x, y :: convert(ToDateTime(DateFormat), x) == Some(y) ==> convert(ToDateTime(DateFormat), y) == Some(y)
  }

  /** The schema has no "datetime" entry. */
  predicate NoDateTarget(columnTypes: seq<(string, string)>)
  {
    forall k :: 0 <= k < |columnTypes| ==> columnTypes[k].1 != "datetime"
  }

  /** A second pass over a successful result changes nothing: an `astype` column already
      carries its target's name, and a parsed date column parses to itself when the date
      parse settles. A "datetime" column is parsed again on the second pass (no dtype has
      that name), so without "datetime" entries no assumption on the parse is needed. */
  lemma SecondPassIdentity(frame: seq<Series>, columnTypes: seq<(string, string)>,
                           convert: (Conversion, Cell) -> Option<Cell>)
    requires DistinctNames(frame) && DistinctKeys(columnTypes)
    requires NoDateTarget(columnTypes) || DateParseSettles(convert)
    requires TransformData(frame, columnTypes, convert).Success?
    ensures TransformData(TransformData(frame, columnTypes, convert).value, columnTypes, convert)
         == TransformData(frame, columnTypes, convert)
  {
    var out := TransformData(frame, columnTypes, convert).value;
    TransformShape(frame, columnTypes, convert);
    MissingColumnFails(frame, columnTypes, convert);
    SameNamesStillPresent(frame, out, columnTypes);
    forall i | 0 <= i < |out| ensures ColumnResult(out[i], columnTypes, convert) == Success(out[i]) {
      ColumnStaysSettled(frame, columnTypes, convert, i);
    }
    ColumnwiseIdentity(out, columnTypes, convert);
  }

  /** A frame on which the schema leaves every column as it is comes back unchanged. */
  lemma ColumnwiseIdentity(out: seq<Series>, columnTypes: seq<(string, string)>,
                           convert: (Conversion, Cell) -> Option<Cell>)
    requires DistinctNames(out) && DistinctKeys(columnTypes) && AllListedPresent(out, columnTypes)
    requires forall i :: 0 <= i < |out| ==> ColumnResult(out[i], columnTypes, convert) == Success(out[i])
    ensures TransformData(out, columnTypes, convert) == Success(out)
  {
    TransformIsColumnwise(out, columnTypes, convert);
    var r := TransformData(out, columnTypes, convert);
    assert r.Success?;
    assert r.value == out;
  }

  lemma ColumnStaysSettled(frame: seq<Series>, columnTypes: seq<(string, string)>,
                           convert: (Conversion, Cell) -> Option<Cell>, i: nat)
    requires DistinctNames(frame) && DistinctKeys(columnTypes)
    requires NoDateTarget(columnTypes) || DateParseSettles(convert)
    requires TransformData(frame, columnTypes, convert).Success?
    requires i < |frame|
    ensures var out := TransformData(frame, columnTypes, convert).value;
      i < |out| && ColumnResult(out[i], columnTypes, convert) == Success(out[i])
  {
    var out := TransformData(frame, columnTypes, convert).value;
    TransformIsColumnwise(frame, columnTypes, convert);
    var t := TargetOf(columnTypes, frame[i].name);
    if t == Some("datetime") {
      NoDTypeNamedDatetime();
      assert !NoDateTarget(columnTypes);
      ListedColumnConverted(frame, columnTypes, convert, i, "datetime");
      ReparseSettles(frame[i], out[i], convert);
    } else {
      if t.Some? {
        ListedColumnConverted(frame, columnTypes, convert, i, t.value);
      }
      SettledColumnStays(out[i], columnTypes, convert);
    }
  }

  /** A column the date parse produced parses back to itself. */
  lemma ReparseSettles(before: Series, after: Series, convert: (Conversion, Cell) -> Option<Cell>)
    requires DateParseSettles(convert)
    requires after.dtype == DateTime64 && |after.cells| == |before.cells|
    requires forall n :: 0 <= n < |before.cells| ==> convert(ToDateTime(DateFormat), before.cells[n]) == Some(after.cells[n])
    ensures ConvertSeries(after, "datetime", convert) == Success(after)
  {
    var c := ToDateTime(DateFormat);
    forall n | 0 <= n < |after.cells| ensures convert(c, after.cells[n]) == Some(after.cells[n]) {
      assert convert(c, before.cells[n]) == Some(after.cells[n]);
    }
    var r := ConvertCells(c, after.cells, convert);
    assert r.Some?;
    assert r.value == after.cells;
  }

  /** Two frames with the same column names have the same listed columns present and the
      same distinctness. */
  lemma SameNamesStillPresent(frame: seq<Series>, out: seq<Series>, columnTypes: seq<(string, string)>)
    requires |out| == |frame| && forall i :: 0 <= i < |frame| ==> out[i].name == frame[i].name
    requires DistinctNames(frame) && AllListedPresent(frame, columnTypes)
    ensures DistinctNames(out) && AllListedPresent(out, columnTypes)
  {
    forall k | 0 <= k < |columnTypes| ensures HasColumn(out, columnTypes[k].0) {
      var i :| 0 <= i < |frame| && frame[i].name == columnTypes[k].0;
      assert out[i].name == columnTypes[k].0;
    }
  }

  /** The retail schema names each column once, and every target it gives converts. */
  lemma DataTypesSchema()
    ensures DistinctKeys(DataTypes)
    ensures forall k :: 0 <= k < |DataTypes| ==> ConversionFor(DataTypes[k].1).Some?
  {
  }

  /** "datetime" is the name of no dtype, so the date column is parsed again on every call;
      with a parse that accepts every cell it always becomes a `datetime64[ns]` column. */
  lemma DateColumnAlwaysConverted(s: Series, convert: (Conversion, Cell) -> Option<Cell>)
    requires s.name == "InvoiceDate"
    requires forall n :: 0 <= n < |s.cells| ==> convert(ToDateTime(DateFormat), s.cells[n]).Some?
    ensures TargetOf(DataTypes, s.name) == Some("datetime")
    ensures ConvertSeries(s, "datetime", convert).Success?
    ensures ConvertSeries(s, "datetime", convert).value.dtype == DateTime64
    ensures forall n :: 0 <= n < |s.cells| ==>
      convert(ToDateTime(DateFormat), s.cells[n]) == Some(ConvertSeries(s, "datetime", convert).value.cells[n])
  {
    NoDTypeNamedDatetime();
    assert ConvertCells(ToDateTime(DateFormat), s.cells, convert).Some?;
  }

  /** A listed name that two columns share ends the call with an error at that entry. */
  lemma SharedNameFails(frame: seq<Series>, columnTypes: seq<(string, string)>,
                        convert: (Conversion, Cell) -> Option<Cell>, i: nat, j: nat)
    requires |columnTypes| > 0 && i < j < |frame|
    requires frame[i].name == columnTypes[0].0 && frame[j].name == columnTypes[0].0
    ensures TransformData(frame, columnTypes, convert) == Failure(AmbiguousColumn(columnTypes[0].0))
  {
  }

  /** On the program's own schema, a second pass over a successful result changes nothing,
      given a date parse that settles. */
  lemma DataTypesSecondPass(frame: seq<Series>, convert: (Conversion, Cell) -> Option<Cell>)
    ensures var r := TransformData(frame, DataTypes, convert);
      DistinctNames(frame) && DateParseSettles(convert) && r.Success? ==>
        TransformData(r.value, DataTypes, convert) == r
  {
    var r := TransformData(frame, DataTypes, convert);
    if DistinctNames(frame) && DateParseSettles(convert) && r.Success? {
      DataTypesSchema();
      SecondPassIdentity(frame, DataTypes, convert);
    }
  }

  /** After a success, every listed name was the name of exactly one column. */
  lemma {:induction false} ListedNamesUnique(frame: seq<Series>, columnTypes: seq<(string, string)>,
                                            convert: (Conversion, Cell) -> Option<Cell>)
    ensures TransformData(frame, columnTypes, convert).Success? ==>
      forall k, i, j :: 0 <= k < |columnTypes| && 0 <= i < j < |frame| && frame[i].name == columnTypes[k].0 ==>
        frame[j].name != columnTypes[k].0
    decreases |columnTypes|
  {
    if |columnTypes| > 0 {
      var (name, target) := columnTypes[0];
      var j := ColumnIndex(frame, name);
      if j.Success? && ConvertSeries(frame[j.value], target, convert).Success? {
        var s := ConvertSeries(frame[j.value], target, convert).value;
        var f := frame[j.value := s];
        ListedNamesUnique(f, columnTypes[1..], convert);
        assert forall i :: 0 <= i < |f| ==> f[i].name == frame[i].name;
        assert forall k :: 1 <= k < |columnTypes| ==> columnTypes[1..][k - 1] == columnTypes[k];
      }
    }
  }
}
