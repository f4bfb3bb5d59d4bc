/** The retail data set as the cleaning step sees it: typed rows whose cells may be null,
    and rows tagged with their dataframe index label. */
module Records {
  import opened Wrappers

  /** The eight columns of the retail data set, in file order. */
  datatype Column =
    | InvoiceNo | StockCode | Description | Quantity
    | InvoiceDate | UnitPrice | CustomerID | Country

  /** A non-null cell, seen column-independently. */
  datatype Value = Text(text: string) | Number(number: real) | Moment(minutes: int)

  /** One transaction record. `None` is a null (NaN) cell; numeric columns hold reals
      because the reader infers float64 for them. */
  datatype Row = Row(
    invoiceNo: Option<string>,
    stockCode: Option<string>,
    description: Option<string>,
    quantity: Option<real>,
    invoiceDate: Option<string>,
    unitPrice: Option<real>,
    customerId: Option<real>,
    country: Option<string>)

  function TextCell(o: Option<string>): Option<Value>
  {
    match o
    case None => None
    case Some(s) => Some(Text(s))
  }

  function NumberCell(o: Option<real>): Option<Value>
  {
    match o
    case None => None
    case Some(x) => Some(Number(x))
  }

  /** The cell of `row` in column `c` (`row[c]`). */
  function Get(row: Row, c: Column): Option<Value>
  {
    match c
    case InvoiceNo => TextCell(row.invoiceNo)
    case StockCode => TextCell(row.stockCode)
    case Description => TextCell(row.description)
    case Quantity => NumberCell(row.quantity)
    case InvoiceDate => TextCell(row.invoiceDate)
    case UnitPrice => NumberCell(row.unitPrice)
    case CustomerID => NumberCell(row.customerId)
    case Country => TextCell(row.country)
  }

  /** `isna()` of one cell. */
  predicate IsNull(row: Row, c: Column)
  {
    Get(row, c).None?
  }

  /** A row together with its dataframe index label. Filtering a dataframe keeps the labels. */
  datatype Entry = Entry(index: nat, row: Row)

  /** The dataframe the reader produces: a default index 0, 1, 2, ... */
  function Label(input: seq<Row>): (t: seq<Entry>)
    ensures |t| == |input|
    ensures forall i :: 0 <= i < |t| ==> t[i].index == i && t[i].row == input[i]
  {
    seq(|input|, i requires 0 <= i < |input| => Entry(i, input[i]))
  }
}
