/** The exceptions that end a run of `csv2model`. None of them is caught:
    the first one raised stops the program. */
module Errors {

  datatype Error =
    | MissingHeader                     // StopIteration from next() on an empty file
    | ShortRow(width: nat)              // IndexError on a CSV row with too few cells
    | UnknownRateLaw(id: string)        // KeyError on the rate-law table
    | NotAnInteger(text: string)        // ValueError from int(...)
    | IndexOutOfRange(index: int)       // IndexError on a species list
    | UnknownParameter(name: string)    // KeyError on the parameter table

  datatype Result<T> = Ok(value: T) | Err(error: Error)
}
