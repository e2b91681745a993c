/** Blocks, headers and the parts of transactions the consensus rules look at. */
module Nakamoto {
  import opened Prelude

  type Hash32 = s: seq<byte> | |s| == 32 witness seq(32, _ => 0)
  type Hash20 = s: seq<byte> | |s| == 20 witness seq(20, _ => 0)
  type Signature = s: seq<byte> | |s| == 65 witness seq(65, _ => 0)

  datatype RawBits = RawBits(len: nat, data: seq<byte>)

  const MAX_POX_BITS: nat := 4000

  predicate ValidBits(bits: RawBits)
  {
    1 <= bits.len <= MAX_POX_BITS && |bits.data| == DivCeil(bits.len, 8)
  }

  /** A bit vector of 1 to 4000 bits, with the bytes it is stored in. */
  type BitVec = bits: RawBits | ValidBits(bits) witness RawBits(1, [0])

  datatype Marker = Marker(index: u32, category: byte)

  datatype Header = Header(
    version: byte,
    chainLength: u64,
    bitcoinSpent: u64,
    consensusHash: Hash20,
    parentBlockId: Hash32,
    merkleRoot: Hash32,
    stateRoot: Hash32,
    timestamp: u64,
    minerSignature: Signature,
    signerSignatures: seq<Signature>,
    poxTreatment: BitVec,
    markers: seq<Marker>)

  datatype Cause =
    | BlockFound
    | Extended
    | ExtendedRuntime
    | ExtendedReadCount
    | ExtendedReadLength
    | ExtendedWriteCount
    | ExtendedWriteLength

  datatype TenureChange = TenureChange(
    tenureConsensusHash: Hash20,
    previousTenureConsensusHash: Hash20,
    bitcoinViewConsensusHash: Hash20,
    previousTenureEnd: Hash32,
    previousTenureBlocks: u32,
    cause: Cause,
    publicKeyHash: Hash20)

  datatype Payload =
    | Coinbase
    | CoinbaseToAltRecipient
    | NakamotoCoinbase(vrfProof: seq<byte>)
    | Change(change: TenureChange)
    | Ordinary

  datatype Transaction = Transaction(payload: Payload, body: seq<byte>)

  datatype Block = Block(header: Header, txs: seq<Transaction>)
}
