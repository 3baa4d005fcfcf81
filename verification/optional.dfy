/** Python's `None`-or-value, used for every optional field of the thermostat snapshot. */
module Optional {

  datatype Option<+T> = None | Some(value: T) {

    /** The present value, or `default` when absent. */
    function GetOr(default: T): T {
      match this
      case Some(v) => v
      case None => default
    }
  }
}
