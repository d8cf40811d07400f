/** Failure-carrying results for the places where the scripts raise. */
module Wrappers {

  datatype Option<+T> = None | Some(value: T)

  /** The Python exceptions the modelled code can raise on its inputs. */
  datatype Error =
    | IndexError          // a list or string index out of range
    | ValueError          // e.g. max() of an empty sequence
    | ZeroDivisionError   // a division by a zero patch size
    | UnboundLocalError   // a name read before any assignment
    | BorderError         // OpenCV refuses a negative border width

  datatype Result<+T> = Success(value: T) | Failure(error: Error)
}
