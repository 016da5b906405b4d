/** Small datatypes and sequence helpers shared by the other modules. */
module Prelude {

  datatype Option<+T> = None | Some(value: T) {
    function GetOr(default: T): T {
      match this
      case Some(v) => v
      case None => default
    }
  }

  datatype Result<+T, +E> = Ok(value: T) | Err(error: E)

  type Byte = b: int | 0 <= b < 256
  type Bytes = seq<Byte>

  // The newest event of a log, and the log before it.
  function Last<T>(s: seq<T>): T
    requires s != []
  {
    s[|s| - 1]
  }

  function Front<T>(s: seq<T>): seq<T>
    requires s != []
  {
    s[..|s| - 1]
  }

  // n * r by repeated addition, which keeps multiplication out of inductive proofs.
  function Times(n: nat, r: real): real {
    if n == 0 then 0.0 else Times(n - 1, r) + r
  }

  lemma {:induction false} TimesIsProduct(n: nat, r: real)
    ensures Times(n, r) == n as real * r
  {
    if n != 0 {
      TimesIsProduct(n - 1, r);
    }
  }

  // n steps of length r fit into w only if n is at most the floor of the quotient.
  lemma {:induction false} TimesFits(n: nat, r: real, w: real)
    requires r > 0.0
    requires Times(n, r) <= w
    ensures n <= (w / r).Floor
  {
    TimesIsProduct(n, r);
    var q := w / r;
    assert (q - n as real) * r == w - n as real * r;
    assert n as real <= q;
  }
}
