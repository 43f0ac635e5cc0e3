/** Failure-carrying values shared by every other module. */
module Base {

  datatype Option<+T> = None | Some(value: T)

  datatype Result<+T, +E> = Success(value: T) | Failure(error: E)

  /** The ValueError a Python `int()` call or a tuple unpacking raises while a
      rule string is parsed; `token` is the stripped comma-separated token. */
  datatype ParseError = BadToken(token: string)

  type Parsed<T> = Result<T, ParseError>

  /** Crop ratios are opaque: the model stores them, looks them up and, in the
      archive export, compares them with zero, and does nothing else. */
  type Ratio = real

  /** Python's `range(a, b + 1)` as a list: the integers from `a` to `b`
      inclusive, empty when `a > b`. */
  function Range(a: int, b: int): (r: seq<int>)
    ensures |r| == if a <= b then b - a + 1 else 0
    ensures forall i :: 0 <= i < |r| ==> r[i] == a + i
  {
    if a <= b then seq(b - a + 1, i => a + i) else []
  }

  lemma RangeMembers(a: int, b: int, x: int)
    ensures x in Range(a, b) <==> a <= x <= b
  {
    if a <= x <= b {
      assert Range(a, b)[x - a] == x;
    }
  }

  /** Moving the head of `s` to the end of `a` leaves `a + s` unchanged. */
  lemma ShiftHead<T>(a: seq<T>, s: seq<T>)
    requires s != []
    ensures a + [s[0]] + s[1..] == a + s
  {
    assert s == [s[0]] + s[1..];
  }

  lemma Regroup<T>(a: seq<T>, b: seq<T>, c: seq<T>)
    ensures (a + b) + c == a + (b + c)
  {
  }
}
