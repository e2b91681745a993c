/** The types the signer modules share. */
module Signers {
  import opened Prelude

  /** A compressed public key, ordered as its 33 bytes are. */
  type Key = nat

  datatype Signer = Signer(key: Key, weight: nat)

  datatype SignerSetError =
    | Empty
    | DuplicateSigner
    | ZeroRewardSlots
    | StackedAmountOverflow
    | WeightOverflow
    | Signature
    | UnknownOrUnorderedSigner
    | InsufficientWeight

  predicate DistinctSigners(signers: seq<Signer>)
  {
    forall i, j :: 0 <= i < j < |signers| ==> signers[i].key != signers[j].key
  }

  /** Signers make a set when there is one at all and no two share a key. */
  function NewSignerSet(signers: seq<Signer>): Result<seq<Signer>, SignerSetError>
  {
    if signers == [] then Err(Empty)
    else if !DistinctSigners(signers) then Err(DuplicateSigner)
    else Ok(signers)
  }

  function WeightSum(signers: seq<Signer>): nat
  {
    if signers == [] then 0 else WeightSum(signers[..|signers| - 1]) + signers[|signers| - 1].weight
  }
}
