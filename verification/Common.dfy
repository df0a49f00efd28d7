/** What several modules share. */
module Common {
  datatype Option<T> = None | Some(value: T)

  /** The first `n` elements, or all if there are fewer. */
  function Take<T>(s: seq<T>, n: nat): (t: seq<T>)
    ensures t <= s && |t| == if |s| <= n then |s| else n
  {
    if |s| <= n then s else s[..n]
  }

  function Min(a: nat, b: nat): (m: nat)
    ensures m <= a && m <= b && (m == a || m == b)
  {
    if a < b then a else b
  }
}
