/** Shared value types: the error-carrying result of the operations that
    raise in the program, and the zero-filled buffers numpy allocates. */
module Common {

  datatype Option<T> = None | Some(value: T)

  datatype Result<T, E> = Success(value: T) | Failure(error: E)

  /** The exceptions the modelled program raises, one constructor each. */
  datatype Error =
    | NotEvenDimensional  // xpxp_to_xxpp on an odd first dimension
    | NotSquare           // xpxp_to_xxpp / recursive_hafnian on a non-square matrix
    | OddOrder            // recursive_hafnian on an odd order
    | EmptyTable          // get_target: max() of an empty row-sum array
    | NoModes             // get_cumsum_kron: d[0] of an empty eigenvalue array
    | BroadcastMismatch   // numpy cannot broadcast the right block into the target
    | DivisionByZero      // A_elem: memory budget divided by n_select**2 * 8 == 0
    | ZeroStep            // A_elem: range(0, n_batch, 0)
    | IndexOutOfRange     // hafnian: a closed form reads a column the matrix lacks
    | EmptyGrid           // Sigma_select: a kernel launch with a zero grid dimension

  /** np.zeros(n) */
  function Zeros(n: nat): (z: seq<int>)
    ensures |z| == n
    ensures forall i :: 0 <= i < n ==> z[i] == 0
  {
    seq(n, _ => 0)
  }

  function Min(a: int, b: int): int
  {
    if a <= b then a else b
  }
}
