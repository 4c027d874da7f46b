/** Optional values: `null`/`undefined` on the JavaScript side. */
module Wrappers {

  datatype Option<+T> = None | Some(value: T) {

    /** The value, or `default` when there is none (JavaScript's `??`). */
    function GetOr(default: T): T {
      match this
      case Some(v) => v
      case None => default
    }
  }

  /** Truthiness of an optional number: `null`, `undefined` and `0` are falsy. */
  predicate TruthyInt(x: Option<int>) {
    x.Some? && x.value != 0
  }

  /** Truthiness of an optional string: `null`, `undefined` and `""` are falsy. */
  predicate TruthyStr(x: Option<string>) {
    x.Some? && x.value != ""
  }

  function Min(a: int, b: int): int { if a <= b then a else b }

  function Max(a: int, b: int): int { if a >= b then a else b }
}
