/** The customer table the dashboard loads, row by row. */
module Records {

  datatype Option<T> = None | Some(value: T)

  /** The six service columns that are binarised at load time, in the order the loader visits them. */
  const Services: seq<string> :=
    ["OnlineSecurity", "OnlineBackup", "DeviceProtection", "TechSupport", "StreamingTV", "StreamingMovies"]

  /**
   * A service cell. The table's column holds the text read from the file until the
   * loader overwrites it with a 0/1 flag.
   */
  datatype Cell = Text(text: string) | Bit(bit: int)

  /** One line of the input file, with every column the dashboard uses, as the reader types it. */
  datatype CsvRow = CsvRow(
    gender: string,
    seniorCitizen: int,
    contract: string,
    paymentMethod: string,
    tenure: int,
    monthlyCharges: real,
    totalCharges: string,
    churn: string,
    services: seq<string>)

  /** One row of the in-memory table. `totalCharges` is None where numeric coercion failed (NaN). */
  datatype Record = Record(
    gender: string,
    seniorCitizen: int,
    contract: string,
    paymentMethod: string,
    tenure: int,
    monthlyCharges: real,
    totalCharges: Option<real>,
    churn: string,
    services: seq<Cell>)

  /** A row has the six service columns. */
  predicate HasServiceColumns(r: Record)
  {
    |r.services| == |Services|
  }
}
