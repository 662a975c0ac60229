/** The optional-value wrapper shared by the scraper and the exporter. */
module Wrappers {

  /** `None` stands for Python's `None` (an element the parser did not find). */
  datatype Option<+T> = None | Some(value: T) {

    /** The wrapped value, or `default` when there is none. */
    function GetOr(default: T): T {
      match this
      case Some(v) => v
      case None => default
    }
  }
}
