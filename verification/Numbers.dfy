/** Arithmetic shared by layout and routing. */
module Numbers {

  function Max(a: real, b: real): real {
    if a > b then a else b
  }

  function Abs(x: real): real {
    if x < 0.0 then -x else x
  }
}
