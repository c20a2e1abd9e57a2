/** Small shared vocabulary: optional values, pass/fail outcomes and bytes. */
module Common {

  /** A value that may be absent (the `null` / `undefined` of the original code). */
  datatype Option<+T> = None | Some(value: T)

  /** The result of an operation that either completes or throws an error. */
  datatype Outcome<+E> = Pass | Fail(error: E)

  /** One octet of a Node `Buffer`. */
  newtype byte = x: int | 0 <= x < 256

  /** The newline byte `\n`. */
  const Newline: byte := 10

  /** Sum of a sequence of naturals, from the front. */
  function Sum(s: seq<nat>): nat
  {
    if s == [] then 0 else s[0] + Sum(s[1..])
  }

  /** Appending one element adds it to the sum. */
  lemma {:induction false} SumAppend(s: seq<nat>, x: nat)
    ensures Sum(s + [x]) == Sum(s) + x
  {
    if s != [] {
      assert (s + [x])[1..] == s[1..] + [x];
      SumAppend(s[1..], x);
    }
  }

  function Min(a: int, b: int): int
  {
    if a <= b then a else b
  }

  function Max(a: int, b: int): int
  {
    if a >= b then a else b
  }
}
