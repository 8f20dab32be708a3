/** The optional-value datatype used wherever the source has a Swift optional
    (`Int?`, `String?`, `CLLocation?`) or a failable conversion. */
module Wrappers {

  datatype Option<+T> = None | Some(value: T) {

    /** The wrapped value, or `default` when there is none (Swift's `??`). */
    function GetOr(default: T): T {
      match this
      case Some(v) => v
      case None => default
    }
  }
}
