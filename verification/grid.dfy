/** Two-dimensional grids as the A2Methods interface presents them: a value
    per (col, row), created with a width and a height and filled by
    `map_default` with an apply function that writes each cell of the new
    grid from the cell at the same position of another grid. Dafny's
    `array2` is indexed [col, row]. */
module Grid {
  import opened Results

  /** `new` followed by `map_default` with an apply that stores f of the
      source cell at the same position. */
  method MapNew<A, B>(source: array2<A>, f: A -> B, zero: B) returns (destination: array2<B>)
    ensures fresh(destination)
    ensures destination.Length0 == source.Length0 && destination.Length1 == source.Length1
    ensures forall col, row :: 0 <= col < source.Length0 && 0 <= row < source.Length1 ==>
              destination[col, row] == f(source[col, row])
  {
    var width, height := source.Length0, source.Length1;
    destination := new B[width, height]((_, _) => zero);
    var row := 0;
    while row < height
      invariant 0 <= row <= height
      invariant forall c, j :: 0 <= c < width && 0 <= j < row ==> destination[c, j] == f(source[c, j])
    {
      var col := 0;
      while col < width
        invariant 0 <= col <= width
        invariant forall c, j :: 0 <= c < width && 0 <= j < row ==> destination[c, j] == f(source[c, j])
        invariant forall c :: 0 <= c < col ==> destination[c, row] == f(source[c, row])
      {
        destination[col, row] := f(source[col, row]);
        col := col + 1;
      }
      row := row + 1;
    }
  }

  /** MapNew with an apply that can raise an exception: the first failure
      ends the pass and is returned; otherwise every cell holds the value
      f computed for it. */
  method TryMapNew<A, B, E>(source: array2<A>, f: A -> Result<B, E>, zero: B) returns (r: Result<array2<B>, E>)
    ensures r.Ok? <==> forall col, row :: 0 <= col < source.Length0 && 0 <= row < source.Length1 ==>
                         f(source[col, row]).Ok?
    ensures r.Ok? ==> fresh(r.value)
    ensures r.Ok? ==> r.value.Length0 == source.Length0 && r.value.Length1 == source.Length1
    ensures r.Ok? ==> forall col, row :: 0 <= col < source.Length0 && 0 <= row < source.Length1 ==>
                        f(source[col, row]) == Ok(r.value[col, row])
  {
    var width, height := source.Length0, source.Length1;
    var destination := new B[width, height]((_, _) => zero);
    var row := 0;
    while row < height
      invariant 0 <= row <= height
      invariant forall c, j :: 0 <= c < width && 0 <= j < row ==> f(source[c, j]) == Ok(destination[c, j])
    {
      var col := 0;
      while col < width
        invariant 0 <= col <= width
        invariant forall c, j :: 0 <= c < width && 0 <= j < row ==> f(source[c, j]) == Ok(destination[c, j])
        invariant forall c :: 0 <= c < col ==> f(source[c, row]) == Ok(destination[c, row])
      {
        var v := f(source[col, row]);
        if v.Err? {
          return Err(v.error);
        }
        destination[col, row] := v.value;
        col := col + 1;
      }
      row := row + 1;
    }
    return Ok(destination);
  }
}
