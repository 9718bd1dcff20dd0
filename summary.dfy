/**
 The three summary metrics at the top of the page: total registered
 products, products in stock and the accepted payment method. For a
 non-empty table they are fixed constants; for an empty table the source
 assigns a four-value tuple to three names, which Python rejects.
 */
module Summary {
  import opened Inventory

  /** A metric shown by a metric card: a number or a text. */
  datatype Value = Int(n: int) | Text(s: string)

  /** Python's `ValueError` from tuple unpacking. */
  datatype Error =
    | TooManyValuesToUnpack(expected: nat)
    | NotEnoughValuesToUnpack(expected: nat, got: nat)

  datatype Result<T> = Ok(value: T) | Err(error: Error)

  datatype Metrics = Metrics(totalProducts: Value, inStock: Value, payment: Value)

  const TOTAL_PRODUCTS: int := 32
  const IN_STOCK: int := 23
  const PAYMENT: string := "Pix"

  /** Python's `a, b, c = values`: succeeds only on exactly three values. */
  function Unpack3(values: seq<Value>): (r: Result<(Value, Value, Value)>)
    ensures r.Ok? <==> |values| == 3
    ensures r.Ok? ==> [r.value.0, r.value.1, r.value.2] == values
    ensures r.Err? ==> r.error.expected == 3 && (r.error.TooManyValuesToUnpack? <==> |values| > 3)
    ensures r.Err? && r.error.NotEnoughValuesToUnpack? ==> r.error.got == |values|
  {
    if |values| == 3 then Ok((values[0], values[1], values[2]))
    else if |values| > 3 then Err(TooManyValuesToUnpack(3))
    else Err(NotEnoughValuesToUnpack(3, |values|))
  }

  /** The metrics branch as written: the constants when the table has rows,
      otherwise `(0, 0, 0, "")` unpacked into three names. It fails exactly on
      the empty table, with too many values to unpack; on any other table the
      cards show 32, 23 and "Pix". */
  function MetricsAsWritten(t: Table): (r: Result<Metrics>)
    ensures r.Err? <==> |t| == 0
    ensures |t| == 0 ==> r == Err(TooManyValuesToUnpack(3))
    ensures |t| > 0 ==> r == Ok(Metrics(Int(32), Int(23), Text("Pix")))
  {
    if |t| > 0 then Ok(Metrics(Int(TOTAL_PRODUCTS), Int(IN_STOCK), Text(PAYMENT)))
    else
      match Unpack3([Int(0), Int(0), Int(0), Text("")])
      case Ok((total, inStock, payment)) => Ok(Metrics(total, inStock, payment))
      case Err(e) => Err(e)
  }

  /** The metrics with the empty-table branch as evidently intended: the same
      constants for a non-empty table, the zero state (0, 0, "") otherwise. */
  function MetricsFor(t: Table): (m: Metrics)
    ensures |t| > 0 ==> MetricsAsWritten(t) == Ok(m)
    ensures |t| == 0 ==> m == Metrics(Int(0), Int(0), Text(""))
  {
    if |t| > 0 then Metrics(Int(TOTAL_PRODUCTS), Int(IN_STOCK), Text(PAYMENT))
    else Metrics(Int(0), Int(0), Text(""))
  }

  /** The metrics are not computed from the table: any two non-empty tables
      show the same cards, whatever their rows, so a one-product table still
      reports 32 registered products. */
  lemma MetricsIgnoreContents(t1: Table, t2: Table)
    requires |t1| > 0 && |t2| > 0
    ensures MetricsFor(t1) == MetricsFor(t2)
    ensures MetricsFor(t1).totalProducts == Int(32)
  {
  }
}
