/** The Some/None datatype used wherever the dashboard works with a value
    that may be absent: a missing cell, an unparseable timestamp, a
    Python `None` or a pandas `NaN`. */
module Wrappers {

  datatype Option<+T> = None | Some(value: T)
}
