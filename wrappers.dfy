/** The optional value the page keeps for `selectedIndex` and `moodSelection`,
    which start out as JavaScript's `null`. */
module Wrappers {

  datatype Option<+T> = None | Some(value: T)
}
