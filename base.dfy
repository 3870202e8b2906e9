/** Small value types shared by every module: optional values, Python-style
    exceptions and results that either carry a value or the exception raised. */
module Base {

  datatype Option<T> = None | Some(value: T)

  /** The exceptions the modelled Python code can raise. */
  datatype Error =
    | KeyError(field: string)        // `d[field]` on a dict without that field
    | ValueError(text: string)       // `float(text)` / `int(text)` on a non-number
    | ResponseError                  // Redis HINCRBY on a field that is not an integer
    | InferenceError                 // the language model call raised
    | AttributeError(name: string)   // calling a method the object does not define

  datatype Result<T> = Ok(value: T) | Err(error: Error)
}
