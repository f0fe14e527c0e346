/** Optional values, standing in for the `null`/`undefined` cases of the
    TypeScript code (an absent stored state, a `null` point, a `NaN`
    from `parseInt`). */
module Wrappers {

  datatype Option<+T> = None | Some(value: T) {

    /** The wrapped value, or `default` when there is none. */
    function GetOr(default: T): T {
      match this
      case Some(v) => v
      case None => default
    }
  }
}

/** Integer points and the small arithmetic helpers the geometry uses. */
module Geometry {

  /** A viewport (or raster) coordinate pair. */
  datatype Point = Point(x: int, y: int)

  function Abs(n: int): nat {
    if n < 0 then -n else n
  }

  function Min(a: int, b: int): int {
    if a <= b then a else b
  }

  function Max(a: int, b: int): int {
    if a <= b then b else a
  }
}
