/** Integers of the host language. */
module JsIntegers {
  const MAX_SAFE_INTEGER := 9007199254740991

  function Max(a: int, b: int): int {
    if a < b then b else a
  }

  function Min(a: int, b: int): int {
    if a < b then a else b
  }
}
