/** Optional values, and the outcome of a step that can raise one of the Python
    exceptions the scripts let escape. */
module Wrappers {

  datatype Option<T> = None | Some(value: T)

  /** The Python exceptions the modelled scripts raise, each with the text that caused it. */
  datatype PyError =
    | IndexError(context: string)
    | KeyError(key: string)
    | ValueError(text: string)
    | NameError(name: string)
    | TypeError(context: string)
    | AttributeError(context: string)
    | ArgumentTypeError(text: string)
    | Exception(message: string)

  datatype Result<T> = Ok(value: T) | Err(error: PyError)
}
