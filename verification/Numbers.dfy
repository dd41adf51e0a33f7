/** Arithmetic shared by the models. */
module Numbers {

  function Min(a: int, b: int): int { if a < b then a else b }
}
