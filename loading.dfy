/**
 * What the conversion loops hand to the cryoSPARC reader: one particle or micrograph
 * metadata file together with the passthrough files parsed with it.
 */
module Loading {

  /** One call of the reader: a metadata file and the passthrough files given with it. */
  datatype LoadRequest = LoadRequest(file: string, passthroughs: seq<string>)

  /** Python's `zip(a, b)`: pairs up to the shorter length. */
  function Zip<A, B>(a: seq<A>, b: seq<B>): (r: seq<(A, B)>)
    ensures |r| == if |a| <= |b| then |a| else |b|
    ensures forall i :: 0 <= i < |r| ==> r[i] == (a[i], b[i])
  {
    seq(if |a| <= |b| then |a| else |b|, i requires 0 <= i < |a| && i < |b| => (a[i], b[i]))
  }

  /** Python's `[x] * n`. */
  function Repeat<T>(x: T, n: nat): (r: seq<T>)
    ensures |r| == n
    ensures forall i :: 0 <= i < n ==> r[i] == x
  {
    seq(n, _ => x)
  }
}
