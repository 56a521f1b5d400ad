/** An optional value, for the source's Swift optionals (`LocalizedStringResource?`, `UndoManager?`). */
module Wrappers {

  datatype Option<T> = None | Some(value: T)

}
