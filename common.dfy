/**
 * Failure-carrying values shared by the whole converter model.
 *
 * The converter never recovers from an error: `error()` prints a message and
 * calls `sys.exit(1)`, and an uncaught Python exception ends the run too.
 * Both are modelled as a `Failure` carrying an `Error` that names the cause.
 */
module Common {

  /** The reasons the converter stops. */
  datatype Error =
    | InvalidInvocation            // wrong number of command-line arguments
    | InvalidFloat(text: string)   // `float(argv[4])` raised ValueError
    | ByteOutOfRange(num: int)     // serialize_byte: "Cannot store {} in a single byte."
    | Uint32OutOfRange(num: int)   // serialize_uint32: "Cannot store {} in 4 bytes."
    | Float32OutOfRange            // serialize_float32: |num| > 2^31
    | CannotOpenTexture(path: string)
    | CannotLoadScene(path: string)
    | NotTriangulated              // "Mesh must be triangulated."
    | UnsupportedMappingMode
    | UnsupportedReferenceMode
    | MissingLayerElement          // the mesh has no normal/tangent/binormal/UV layer: attribute access on None
    | IndexOutOfRange              // an index outside the array it is applied to

  datatype Option<+T> = None | Some(value: T)

  datatype Result<+T> = Success(value: T) | Failure(error: Error) {
    predicate IsFailure() {
      Failure?
    }

    function PropagateFailure<U>(): Result<U>
      requires Failure?
    {
      Failure(error)
    }

    function Extract(): T
      requires Success?
    {
      value
    }
  }

  /** The outcome of an operation that only has an effect: `Pass`, or the error that stopped it. */
  datatype Outcome = Pass | Fail(error: Error)

  /** `f` applied to every element in order; the first failure stops it. */
  function MapAll<T, U>(s: seq<T>, f: T -> Result<U>): (r: Result<seq<U>>)
    ensures r.Success? ==> |r.value| == |s|
  {
    if s == [] then Success([])
    else
      var init :- MapAll(s[..|s| - 1], f);
      var last :- f(s[|s| - 1]);
      Success(init + [last])
  }

  /** Every element of a successful MapAll is the result of `f` on the element at the same place. */
  lemma {:induction false} MapAllAt<T, U>(s: seq<T>, f: T -> Result<U>)
    requires MapAll(s, f).Success?
    ensures forall k | 0 <= k < |s| :: f(s[k]) == Success(MapAll(s, f).value[k])
  {
    if s != [] {
      var init := s[..|s| - 1];
      MapAllAt(init, f);
      assert forall k | 0 <= k < |init| :: init[k] == s[k];
    }
  }

  /** The first element on which `f` fails decides the error of the whole. */
  lemma {:induction false} MapAllFailure<T, U>(s: seq<T>, f: T -> Result<U>, i: nat)
    requires i <= |s|
    requires MapAll(s[..i], f).Failure?
    ensures MapAll(s, f) == Failure(MapAll(s[..i], f).error)
    decreases |s| - i
  {
    if i < |s| {
      assert s[..i + 1][..i] == s[..i];
      MapAllFailure(s, f, i + 1);
    } else {
      assert s[..i] == s;
    }
  }
}
