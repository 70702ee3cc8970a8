/** The optional value the TypeScript sources express as `T | null` (or an absent property). */
module Wrappers {
  datatype Option<+T> = None | Some(value: T)
}
