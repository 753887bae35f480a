/** Optional values, query results and the errors the query engine raises. */
module Outcomes {

  datatype Option<T> = None | Some(value: T)

  /** The failures the query engine reports; each one stands for a `ValueError` raised with the message noted. */
  datatype QueryError =
    | NoEntityData(entity: string)             // "No data found for entity: <entity>"
    | NoDataAvailable                          // "No data available."
    | UnknownEntity(suggestions: seq<string>)  // "Unknown entity name." (with "Did you mean one of: ..." when non-empty)
    | InvalidOrder                             // "order must be 'loss' or 'gain'."
    | NoYearData(year: int)                    // "No ... data found for year <year>."
    | NoEntityYearData(entity: string, year: int) // "No ... data for <entity> in <year>."

  datatype Result<T> = Ok(value: T) | Err(error: QueryError)
}
