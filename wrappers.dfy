/** Option, Result and Outcome, plus the exceptions the dispatch core can raise. */
module Wrappers {

  datatype Option<+T> = None | Some(value: T)

  datatype Result<+T, +E> = Ok(value: T) | Err(error: E)

  datatype Outcome<+E> = Pass | Fail(error: E)

  /**
   * Every way the Python core can raise. The program never catches them:
   * an exception aborts the whole simulation.
   */
  datatype Error =
    | BucketMissing       // iterating or searching a hash-table bucket that is still None (TypeError)
    | UnknownVertex       // a graph lookup through a vertex that was never added (AttributeError on None)
    | MissingDistance     // a distance that is None used in arithmetic or a comparison (TypeError)
    | BadTime             // a time string without "h:mm am|pm" (AttributeError on a failed match)
    | IndexOutOfRange     // a distance row longer than the locations listed so far (IndexError)
    | AlreadyEnRoute      // set_enroute on an EN_ROUTE package
    | WrongTruck          // set_enroute by a truck other than the required one
    | AlreadyDelivered    // complete_delivery on a DELIVERED package
    | TruckFull           // load on a truck that holds 16 packages
    | NoProgress          // the urgent-loading loop at a point where it can only spin forever
    | OutOfRounds         // the drain phase did not finish within the given number of rounds
}
