/** Arithmetic shared by the models. */
module Numbers {
  function Min(a: int, b: int): int {
    if a < b then a else b
  }

  function Max(a: int, b: int): int {
    if a < b then b else a
  }

  function MinReal(a: real, b: real): real {
    if a < b then a else b
  }

  function MaxReal(a: real, b: real): real {
    if a < b then b else a
  }

  lemma Scale(a: int, b: int, size: nat)
    requires a <= b
    ensures a * size <= b * size
  {
  }

  lemma ScaleStrict(a: int, b: int, size: nat)
    ensures a < b ==> a * size + size <= b * size
  {
    if a < b { Scale(a + 1, b, size); }
  }
}
