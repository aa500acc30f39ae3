/** Option and Result, and the kinds of failure the lookup functions raise. */
module Wrappers {

  datatype Option<+T> = None | Some(value: T)

  datatype Result<+T, +E> = Ok(value: T) | Err(error: E)

  /** The exceptions of the modelled code that matter to its callers:
      - KeyError: a dictionary subscript with a missing key (the key is carried);
      - IndexError: `[0]` on an empty XPath result;
      - FetchError: the HTTP fetch of the remote page failed. */
  datatype Error = KeyError(key: string) | IndexError | FetchError
}
