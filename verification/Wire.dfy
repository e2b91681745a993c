/** Big-endian numbers and the byte reader and writer of the consensus encoding. */
module Wire {
  import opened Prelude

  datatype CodecError =
    | EndOfInput
    | Length
    | TrailingBytes
    | BitVecInvalid
    | TransactionInvalid
    | DuplicateTransaction
    | MerkleRoot

  // ---------- Fixed-width numbers ----------

  function Pow256(n: nat): nat { if n == 0 then 1 else 256 * Pow256(n - 1) }

  function BigEndian(n: nat, width: nat): (s: seq<byte>)
    ensures |s| == width
  {
    if width == 0 then [] else BigEndian(n / 256, width - 1) + [n % 256]
  }

  function FromBigEndian(s: seq<byte>): nat
  {
    if s == [] then 0 else 256 * FromBigEndian(s[..|s| - 1]) + s[|s| - 1]
  }

  lemma {:induction false} BigEndianRoundTrip(n: nat, width: nat)
    requires n < Pow256(width)
    ensures FromBigEndian(BigEndian(n, width)) == n
  {
    if width != 0 {
      BigEndianRoundTrip(n / 256, width - 1);
      var s := BigEndian(n, width);
      assert s[..|s| - 1] == BigEndian(n / 256, width - 1);
    }
  }

  lemma {:induction false} FromBigEndianRoundTrip(s: seq<byte>)
    ensures FromBigEndian(s) < Pow256(|s|) && BigEndian(FromBigEndian(s), |s|) == s
  {
    if s != [] {
      FromBigEndianRoundTrip(s[..|s| - 1]);
      assert s == s[..|s| - 1] + [s[|s| - 1]];
    }
  }

  /** The most significant digit comes first. */
  lemma {:induction false} BigEndianDigit(n: nat, width: nat, i: nat)
    requires i < width
    ensures Pow256(width - 1 - i) > 0 && BigEndian(n, width)[i] == n / Pow256(width - 1 - i) % 256
  {
    if i != width - 1 {
      BigEndianDigit(n / 256, width - 1, i);
      Pow256Quotient(n, width - 2 - i);
    }
  }

  lemma {:induction false} Pow256Quotient(n: nat, k: nat)
    ensures Pow256(k) > 0 && n / 256 / Pow256(k) == n / Pow256(k + 1)
  {
    if k != 0 {
      Pow256Quotient(n, k - 1);
    }
    QuotientTwice(n, Pow256(k));
  }

  lemma QuotientTwice(n: nat, p: nat)
    requires p > 0
    ensures n / 256 / p == n / (256 * p)
  {
    var q, r := n / 256 / p, n / 256 % p;
    assert n / 256 == q * p + r;
    assert q * (256 * p) == 256 * (q * p);
    QuotientIs(n, 256 * p, q, 256 * r + n % 256);
  }

  lemma QuotientIs(n: nat, d: nat, q: nat, r: nat)
    requires r < d && n == q * d + r
    ensures n / d == q
  {
    var k := n / d - q;
    assert k * d == r - n % d;
    assert k >= 1 ==> k * d >= d;
    assert k <= -1 ==> k * d <= -1 * d;
  }

  lemma Widths()
    ensures Pow256(1) == 0x100 && Pow256(2) == 0x1_0000 && Pow256(4) == U32_MAX + 1 && Pow256(8) == U64_MAX + 1
  {
    assert Pow256(0) == 1;
    assert Pow256(3) == 256 * Pow256(2);
    assert Pow256(5) == 256 * Pow256(4);
    assert Pow256(6) == 256 * Pow256(5);
    assert Pow256(7) == 256 * Pow256(6);
  }

  // ---------- Reading from the front of a byte string ----------

  type Parsed<+T> = Result<(T, seq<byte>), CodecError>

  function Take(s: seq<byte>, n: nat): (r: Parsed<seq<byte>>)
    ensures r.Ok? ==> |r.value.0| == n && r.value.0 + r.value.1 == s
  {
    if n <= |s| then Ok((s[..n], s[n..])) else Err(EndOfInput)
  }

  function GetNumber(s: seq<byte>, width: nat): (r: Parsed<nat>)
    ensures r.Ok? ==> r.value.0 < Pow256(width) && BigEndian(r.value.0, width) + r.value.1 == s
  {
    var (taken, rest) :- Take(s, width);
    FromBigEndianRoundTrip(taken);
    Ok((FromBigEndian(taken), rest))
  }

  lemma TakeFront(front: seq<byte>, rest: seq<byte>)
    ensures Take(front + rest, |front|) == Ok((front, rest))
  {
    assert (front + rest)[..|front|] == front && (front + rest)[|front|..] == rest;
  }

  lemma GetNumberFront(n: nat, width: nat, rest: seq<byte>)
    requires n < Pow256(width)
    ensures GetNumber(BigEndian(n, width) + rest, width) == Ok((n, rest))
  {
    TakeFront(BigEndian(n, width), rest);
    BigEndianRoundTrip(n, width);
  }

  // ---------- The reader and writer in place ----------

  /** A read in place returned what a parse of the remaining bytes returns, and left what it leaves. */
  ghost predicate Follows<T>(p: Parsed<T>, r: Result<T, CodecError>, remaining: seq<byte>)
  {
    if p.Ok? then r == Ok(p.value.0) && remaining == p.value.1 else r == Err(p.error)
  }

  class Reader {
    const bytes: seq<byte>
    var offset: nat

    ghost predicate Valid()
      reads this
    {
      offset <= |bytes|
    }

    ghost function Remaining(): seq<byte>
      requires Valid()
      reads this
    {
      bytes[offset..]
    }

    constructor (bytes: seq<byte>)
      ensures Valid() && Remaining() == bytes && this.bytes == bytes && offset == 0
    {
      this.bytes := bytes;
      offset := 0;
    }

    method TakeBytes(n: nat) returns (r: Result<seq<byte>, CodecError>)
      requires Valid()
      modifies this
      ensures Valid()
      ensures Follows(Take(old(Remaining()), n), r, Remaining())
      ensures r.Err? ==> offset == old(offset)
    {
      var end := offset + n;
      if |bytes| < end {
        return Err(EndOfInput);
      }
      var taken := bytes[offset..end];
      assert taken == Remaining()[..n] && bytes[end..] == Remaining()[n..];
      offset := end;
      return Ok(taken);
    }

    method Number(width: nat) returns (r: Result<nat, CodecError>)
      requires Valid()
      modifies this
      ensures Valid()
      ensures Follows(GetNumber(old(Remaining()), width), r, Remaining())
    {
      var taken :- TakeBytes(width);
      return Ok(FromBigEndian(taken));
    }
  }

  class Writer {
    var bytes: seq<byte>

    constructor ()
      ensures bytes == []
    {
      bytes := [];
    }

    method Raw(value: seq<byte>)
      modifies this
      ensures bytes == old(bytes) + value
    {
      bytes := bytes + value;
    }

    method Number(value: nat, width: nat)
      modifies this
      ensures bytes == old(bytes) + BigEndian(value, width)
    {
      Raw(BigEndian(value, width));
    }
  }
}
