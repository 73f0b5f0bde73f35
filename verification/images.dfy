/**
 A rasterised source view: `cols` x `rows` pixels in each of `planes`
 planes.  Pixels are addressed as in the library, `(i, j, p)` with `i` the
 column, `j` the row and `p` the plane; the data is stored plane by plane,
 row by row, so the pixel `(i, j, p)` is `data[p][j][i]`.
 */
module Images {

  datatype Image<T> = Image(cols: nat, rows: nat, planes: nat, data: seq<seq<seq<T>>>)
  {
    /**
     The stored data has the declared extent.  A view with pixels has at
     least one plane, since the edge scans read plane 0; an empty view may
     have none.
     */
    predicate WellFormed() {
      && (planes >= 1 || rows == 0 || cols == 0)
      && |data| == planes
      && (forall p :: 0 <= p < planes ==> |data[p]| == rows)
      && (forall p, j :: 0 <= p < planes && 0 <= j < rows ==> |data[p][j]| == cols)
    }

    /** The pixel read by `view(i, j, p)`. */
    function At(i: int, j: int, p: int): T
      requires WellFormed()
      requires 0 <= i < cols && 0 <= j < rows && 0 <= p < planes
    {
      data[p][j][i]
    }

    /** Row `j` of plane 0, the pixels `view(i, j)` for increasing `i` (none in a view without planes). */
    function Row(j: int): (line: seq<T>)
      requires WellFormed()
      requires 0 <= j < rows
      ensures |line| == cols
      ensures forall i :: 0 <= i < cols ==> line[i] == At(i, j, 0)
    {
      if planes == 0 then [] else data[0][j]
    }

    /** Column `i` of plane 0, the pixels `view(i, j)` for increasing `j` (none in a view without planes). */
    function Column(i: int): (line: seq<T>)
      requires WellFormed()
      requires 0 <= i < cols
      ensures |line| == rows
      ensures forall j :: 0 <= j < rows ==> line[j] == At(i, j, 0)
    {
      if planes == 0 then [] else seq(rows, j requires 0 <= j < rows => data[0][j][i])
    }
  }
}
