/** Optional values: stand for Java's nullable references. */
module Wrappers {

  datatype Option<+T> = None | Some(value: T)

  /** A null string read as the empty string. */
  function OrEmpty(s: Option<string>): string {
    match s
    case Some(v) => v
    case None => ""
  }
}
