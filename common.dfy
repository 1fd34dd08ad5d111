/** Small shared vocabulary: optional values, results with an error,
    and Python's prefix slice `s[:k]`. */
module Common {

  datatype Option<+T> = None | Some(value: T) {
    /** Python's `d.get(key, default)` once the lookup has been made. */
    function GetOr(default: T): T {
      match this
      case Some(v) => v
      case None => default
    }
  }

  datatype Result<+R, +E> = Success(value: R) | Failure(error: E)

  /** A dictionary value that is either a string or Python's `None`. */
  datatype Value = Str(s: string) | Null

  function Min(a: int, b: int): int { if a <= b then a else b }
  function Max(a: int, b: int): int { if a <= b then b else a }

  /** Python's `s[:k]`: a non-negative `k` keeps at most `k` elements,
      a negative `k` drops the last `-k` elements. */
  function PyPrefix<T>(s: seq<T>, k: int): (r: seq<T>)
    ensures r <= s
    ensures k >= 0 ==> |r| == Min(k, |s|)
    ensures k < 0 ==> |r| == Max(|s| + k, 0)
  {
    if k >= 0 then s[..Min(k, |s|)] else s[..Max(|s| + k, 0)]
  }
}
