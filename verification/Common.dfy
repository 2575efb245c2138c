/** Definitions that several parts of the model share. */
module Common {

  datatype Option<T> = None | Some(value: T)

  const ALLNET_HEADER_SIZE: nat := 24

  lemma MulMonotone(c: nat, a: nat, b: nat)
    requires a <= b
    ensures c * a <= c * b
  {
    assert c * b == c * a + c * (b - a);
  }

  lemma OneTimesMore(c: nat, a: nat, b: nat)
    requires a < b
    ensures c * a + c <= c * b
  {
    MulMonotone(c, a + 1, b);
    assert c * (a + 1) == c * a + c;
  }
}
