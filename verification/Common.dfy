/** Shared types and lists. A thrown error of the SDK is an `Err`; `undefined` is a `None`. */
module Common {

  datatype Option<+T> = None | Some(value: T)

  datatype Result<+T> = Ok(value: T) | Err(error: Error)

  /** The errors the modelled code throws, one per message it uses. */
  datatype Error =
    | TooLarge            // TOO_LARGE_SIZE
    | TooSmall            // TOO_SMALL_SIZE
    | InvalidSize         // INVALID_SIZE
    | EmptyResponse       // "TxResponse contains null or is empty"
    | InitNotFound        // "Failed to find init tx for identifier"
    | InvalidTxType       // INVALID_TX_TYPE
    | CouldNotFetch       // COULD_NOT_FETCH_DATA
    | InvalidRead         // INVALID_READ
    | NotFound            // COULD_NOT_FIND_COMMITMENT
    | OutOfBounds         // INDEX_OUT_OF_BOUNDS
    | MergeNeeded         // MERGE_NEEDED
    | TwoSends            // "Encountered two sends with same nonce"
    | NotReconstructed    // "Failed to reconstruct commitment"
    | NotConfirmed        // "Cannot create transaction while still waiting for tx to confirm"
    | LengthsDiffer       // "Arrays to be zipped don't have same length"
    | InvalidTokenType    // INVALID_TOKEN_TYPE
    | InvalidRate         // INVALID_CONVERSION_RATE

  lemma SubsetSize<T>(a: set<T>, b: set<T>)
    requires a <= b
    ensures |a| <= |b|
  {
    assert b == a + (b - a);
  }

  function Sum(s: seq<nat>): nat { if s == [] then 0 else s[0] + Sum(s[1..]) }

  lemma {:induction false} SumConcat(a: seq<nat>, b: seq<nat>)
    ensures Sum(a + b) == Sum(a) + Sum(b)
  {
    if a == [] {
      assert a + b == b;
    } else {
      SumConcat(a[1..], b);
      assert (a + b)[0] == a[0] && (a + b)[1..] == a[1..] + b;
    }
  }
}
