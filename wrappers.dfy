/** Failure values shared by the whole model.  The Python code raises
    exceptions; the model returns them as `Err` values instead. */
module Wrappers {

  datatype Option<T> = None | Some(value: T)

  /** The exceptions the modelled Python code can raise. */
  datatype Error =
    | KeyError(key: string)          // a dict lookup of a missing key
    | UnpackError(line: string)      // `a, b = line.split(' as ')` with other than two parts
    | ValueError(item: string)       // `list.index` of an absent item
    | IOError(path: string)          // `open(path)` of a file that cannot be read
    | TypeError(text: string)        // `text.decode('hex')` of text that is not hexadecimal

  datatype Result<T> = Ok(value: T) | Err(error: Error)

  /** The end of an operation that returns nothing: it finished or raised. */
  datatype Outcome = Pass | Fail(error: Error)
}
