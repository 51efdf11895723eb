/** Small definitions that several modules share. */
module Utils {

  datatype Option<+T> = None | Some(value: T)

  function Min(x: int, y: int): (r: int)
    ensures r <= x && r <= y && (r == x || r == y)
  {
    if x < y then x else y
  }
}
