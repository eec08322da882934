/** Failure-compatible wrappers and the error kinds of the envelope codec.
    Each `Error` constructor stands for an exception the .NET code throws. */
module Outcomes {

  datatype Option<+T> = None | Some(value: T)

  datatype Error =
    | UnknownAttributeType       // ArgumentOutOfRangeException: a tag outside the converter's switch
    | NullAttributeKey           // ArgumentNullException: a dictionary key taken from a null CustomName
    | MalformedTimestamp         // DateTimeOffset.Parse on a null or unparsable string
    | InvalidCast                // unboxing a well-known attribute value of the wrong runtime type
    | NullTimestamp              // NullReferenceException: unboxing a null CreatedUtc value to DateTimeOffset
    | UnsupportedAttributeValue  // NotSupportedException: a custom attribute that is neither string nor integer
    | ItemAttributesNotImplemented // NotImplementedException from ItemAttributesToContract
    | UnmappedContractType       // InvalidOperationException: no contract name for an item's type
    | StreamTooLong              // a MemoryStream grown past int.MaxValue bytes
    | TruncatedHeader            // a buffer shorter than the fixed message header
    | UnexpectedMessageFormat    // InvalidOperationException: header version is not the data schema
    | RangeOutsideBuffer         // MemoryStream / Buffer.BlockCopy with an offset or count outside the buffer
    | MalformedEnvelope          // the envelope serializer could not read the metadata block
    | MalformedPayload           // the data serializer could not read an item's bytes
    | MalformedReference         // IndexOutOfRangeException: a reference text with too few fields

  datatype Result<+R> = Ok(value: R) | Err(error: Error) {

    predicate IsFailure() {
      Err?
    }

    function PropagateFailure<U>(): Result<U>
      requires Err?
    {
      Err(error)
    }

    function Extract(): R
      requires Ok?
    {
      value
    }
  }

  /** Applies `f` to every element in order, as a `foreach` loop that stops at the
      first exception does: either every element succeeds, or the error is the one
      raised by the first element that fails. */
  function Traverse<A, B>(xs: seq<A>, f: A -> Result<B>): (r: Result<seq<B>>)
    ensures r.Ok? <==> forall i :: 0 <= i < |xs| ==> f(xs[i]).Ok?
    ensures r.Ok? ==> |r.value| == |xs| && forall i :: 0 <= i < |xs| ==> r.value[i] == f(xs[i]).value
    ensures r.Err? ==> exists i :: 0 <= i < |xs| && f(xs[i]) == Err(r.error) && forall j :: 0 <= j < i ==> f(xs[j]).Ok?
    decreases |xs|
  {
    if |xs| == 0 then Ok([])
    else
      var head :- f(xs[0]);
      var tail :- Traverse(xs[1..], f);
      Ok([head] + tail)
  }
}
