/** The output row of both scrapers. */
module Records {

  /** The sentinel both scrapers write for a value they could not resolve. */
  const NA: string := "N/A"

  /** One row of the result file: columns Year, Make, Model, Sale Price. */
  datatype Record = Record(year: string, make: string, model: string, salePrice: string)
}
