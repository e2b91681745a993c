/**
 The scripts behind an sBTC deposit output, and why the Merkle root over them
 fixes every parameter of the deposit.
 */
module DepositScript {
  import opened Prelude
  import opened Wire
  import opened Nakamoto
  import opened SignedHeader

  datatype AddressError = InvalidBitcoinAddress

  // ---------- Little-endian numbers ----------

  function LittleEndian(n: nat, width: nat): (s: seq<byte>)
    ensures |s| == width
  {
    if width == 0 then [] else [n % 256] + LittleEndian(n / 256, width - 1)
  }

  function FromLittleEndian(s: seq<byte>): nat
  {
    if s == [] then 0 else s[0] + 256 * FromLittleEndian(s[1..])
  }

  lemma {:induction false} LittleEndianRoundTrip(n: nat, width: nat)
    requires n < Pow256(width)
    ensures FromLittleEndian(LittleEndian(n, width)) == n
  {
    if width != 0 {
      LittleEndianRoundTrip(n / 256, width - 1);
      assert LittleEndian(n, width)[1..] == LittleEndian(n / 256, width - 1);
    }
  }

  /** A little-endian number at the front of a script, and what follows it. */
  function GetLittle(s: seq<byte>, width: nat): Option<(nat, seq<byte>)>
  {
    if |s| < width then None else Some((FromLittleEndian(s[..width]), s[width..]))
  }

  lemma GetLittleFront(n: nat, width: nat, rest: seq<byte>)
    requires n < Pow256(width)
    ensures GetLittle(LittleEndian(n, width) + rest, width) == Some((n, rest))
  {
    var front := LittleEndian(n, width);
    assert (front + rest)[..width] == front && (front + rest)[width..] == rest;
    LittleEndianRoundTrip(n, width);
  }

  // ---------- Pushes ----------

  /** The opcode and length that precede pushed data. */
  function PushHeader(length: nat): Result<seq<byte>, AddressError>
  {
    if length <= 75 then Ok([length])
    else if length <= 0xff then Ok([0x4c, length])
    else if length <= 0xffff then Ok([0x4d] + LittleEndian(length, 2))
    else if length <= U32_MAX then Ok([0x4e] + LittleEndian(length, 4))
    else Err(InvalidBitcoinAddress)
  }

  function PushData(data: seq<byte>): Result<seq<byte>, AddressError>
  {
    var header :- PushHeader(|data|);
    Ok(header + data)
  }

  function GetPushLength(s: seq<byte>): Option<(nat, seq<byte>)>
  {
    if s == [] then None
    else if s[0] <= 75 then Some((s[0] as nat, s[1..]))
    else if s[0] == 0x4c then GetLittle(s[1..], 1)
    else if s[0] == 0x4d then GetLittle(s[1..], 2)
    else if s[0] == 0x4e then GetLittle(s[1..], 4)
    else None
  }

  function GetPush(s: seq<byte>): Option<(seq<byte>, seq<byte>)>
  {
    match GetPushLength(s)
    case None => None
    case Some((length, rest)) => if |rest| < length then None else Some((rest[..length], rest[length..]))
  }

  lemma GetPushLengthFront(length: nat, rest: seq<byte>)
    requires length <= U32_MAX
    ensures GetPushLength(PushHeader(length).value + rest) == Some((length, rest))
  {
    Widths();
    var header := PushHeader(length).value;
    assert (header + rest)[0] == header[0] && (header + rest)[1..] == header[1..] + rest;
    if length <= 75 {
      assert header[1..] + rest == rest;
    } else if length <= 0xff {
      assert LittleEndian(length, 1) == [length % 256] + LittleEndian(length / 256, 0);
      assert header[1..] == LittleEndian(length, 1);
      GetLittleFront(length, 1, rest);
    } else if length <= 0xffff {
      GetLittleFront(length, 2, rest);
    } else {
      GetLittleFront(length, 4, rest);
    }
  }

  /** A push, whatever follows it, is read back whole. */
  lemma GetPushFront(data: seq<byte>, rest: seq<byte>)
    requires |data| <= U32_MAX
    ensures GetPush(PushData(data).value + rest) == Some((data, rest))
  {
    var header := PushHeader(|data|).value;
    assert header + data + rest == header + (data + rest);
    GetPushLengthFront(|data|, data + rest);
    assert (data + rest)[..|data|] == data && (data + rest)[|data|..] == rest;
  }

  // ---------- Script numbers ----------

  /** The shortest little-endian form whose top bit, the sign, is clear. */
  function MinimalBytes(value: u16): seq<byte>
    requires value > 0
  {
    if value < 0x80 then [value]
    else if value < 0x100 then [value, 0]
    else if value < 0x8000 then [value % 256, value / 256]
    else [value % 256, value / 256, 0]
  }

  function ScriptNumber(value: u16): seq<byte>
  {
    if value == 0 then [0]
    else if value <= 16 then [0x50 + value]
    else [|MinimalBytes(value)|] + MinimalBytes(value)
  }

  method EncodeScriptNumber(value: u16) returns (r: seq<byte>)
    ensures r == ScriptNumber(value)
  {
    if value == 0 {
      return [0];
    }
    if value <= 16 {
      return [0x50 + value];
    }
    var bytes: seq<byte> := [value % 256, value / 256];
    while bytes != [] && bytes[|bytes| - 1] == 0
      invariant bytes == [value % 256, value / 256] || (value < 0x100 && bytes == [value])
    {
      bytes := bytes[..|bytes| - 1];
    }
    if bytes != [] && bytes[|bytes| - 1] >= 0x80 {
      bytes := bytes + [0];
    }
    r := [|bytes|] + bytes;
  }

  function GetScriptNumber(s: seq<byte>): Option<(nat, seq<byte>)>
  {
    if s == [] then None
    else if s[0] == 0 then Some((0, s[1..]))
    else if 0x51 <= s[0] <= 0x60 then Some((s[0] - 0x50, s[1..]))
    else if s[0] <= 3 then GetLittle(s[1..], s[0])
    else None
  }

  lemma MinimalBytesValue(value: u16)
    requires value > 0
    ensures FromLittleEndian(MinimalBytes(value)) == value
  {
    var s := MinimalBytes(value);
    assert FromLittleEndian(s) == s[0] + 256 * FromLittleEndian(s[1..]);
    if |s| > 1 {
      assert FromLittleEndian(s[1..]) == s[1] + 256 * FromLittleEndian(s[1..][1..]);
      if |s| > 2 {
        assert FromLittleEndian(s[1..][1..]) == s[2] + 256 * FromLittleEndian(s[1..][1..][1..]);
      }
    }
  }

  /** No byte string with a clear sign bit says the same in fewer bytes. */
  lemma MinimalIsShortest(value: u16, s: seq<byte>)
    requires value > 0 && FromLittleEndian(s) == value && (s == [] || s[|s| - 1] < 0x80)
    ensures |MinimalBytes(value)| <= |s| && MinimalBytes(value)[|MinimalBytes(value)| - 1] < 0x80
  {
    if |s| == 1 || |s| == 2 {
      assert FromLittleEndian(s) == s[0] + 256 * FromLittleEndian(s[1..]);
      if |s| == 2 {
        assert FromLittleEndian(s[1..]) == s[1] + 256 * FromLittleEndian(s[1..][1..]);
      }
    }
  }

  lemma GetScriptNumberFront(value: u16, rest: seq<byte>)
    ensures GetScriptNumber(ScriptNumber(value) + rest) == Some((value, rest))
  {
    var s := ScriptNumber(value);
    assert (s + rest)[0] == s[0] && (s + rest)[1..] == s[1..] + rest;
    if value > 16 {
      var body := MinimalBytes(value);
      assert s[1..] == body;
      assert (body + rest)[..|body|] == body && (body + rest)[|body|..] == rest;
      MinimalBytesValue(value);
    } else {
      assert s[1..] + rest == rest;
    }
  }

  // ---------- Lengths ----------

  function CompactSize(n: u64): seq<byte>
  {
    if n <= 252 then [n]
    else if n <= 0xffff then [0xfd] + LittleEndian(n, 2)
    else if n <= U32_MAX then [0xfe] + LittleEndian(n, 4)
    else [0xff] + LittleEndian(n, 8)
  }

  function GetCompactSize(s: seq<byte>): Option<(nat, seq<byte>)>
  {
    if s == [] then None
    else if s[0] <= 252 then Some((s[0] as nat, s[1..]))
    else if s[0] == 0xfd then GetLittle(s[1..], 2)
    else if s[0] == 0xfe then GetLittle(s[1..], 4)
    else GetLittle(s[1..], 8)
  }

  lemma GetCompactSizeFront(n: u64, rest: seq<byte>)
    ensures GetCompactSize(CompactSize(n) + rest) == Some((n, rest))
  {
    Widths();
    var s := CompactSize(n);
    assert (s + rest)[0] == s[0] && (s + rest)[1..] == s[1..] + rest;
    if n <= 252 {
      assert s[1..] + rest == rest;
    } else if n <= 0xffff {
      GetLittleFront(n, 2, rest);
    } else if n <= U32_MAX {
      GetLittleFront(n, 4, rest);
    } else {
      GetLittleFront(n, 8, rest);
    }
  }

  // ---------- The two scripts ----------

  datatype Deposit = Deposit(key: Hash32, recipient: seq<byte>, maxFee: u64, lockTime: u16, userScript: seq<byte>)

  function DepositData(d: Deposit): seq<byte>
  {
    BigEndian(d.maxFee, 8) + d.recipient
  }

  function DepositLeaf(d: Deposit): Result<seq<byte>, AddressError>
  {
    var data :- PushData(DepositData(d));
    var key :- PushData(d.key);
    Ok(data + [0x75] + key + [0xac])
  }

  function ReclaimLeaf(d: Deposit): seq<byte>
  {
    ScriptNumber(d.lockTime) + [0xb2] + d.userScript
  }

  lemma DepositDataInjective(a: Deposit, b: Deposit)
    requires DepositData(a) == DepositData(b)
    ensures a.maxFee == b.maxFee && a.recipient == b.recipient
  {
    Widths();
    GetNumberFront(a.maxFee, 8, a.recipient);
    GetNumberFront(b.maxFee, 8, b.recipient);
  }

  lemma DepositLeafParts(d: Deposit)
    requires |d.recipient| + 8 <= U32_MAX
    ensures GetPush(DepositLeaf(d).value)
            == Some((BigEndian(d.maxFee, 8) + d.recipient, [0x75] + PushData(d.key).value + [0xac]))
    ensures GetPush(PushData(d.key).value + [0xac]) == Some((d.key, [0xac]))
  {
    var rest := [0x75] + PushData(d.key).value + [0xac];
    GetPushFront(DepositData(d), rest);
    assert DepositLeaf(d).value == PushData(DepositData(d)).value + rest;
    GetPushFront(d.key, [0xac]);
  }

  /** The deposit script fixes key, fee and recipient, of whatever length. */
  lemma DepositLeafInjective(a: Deposit, b: Deposit)
    requires |a.recipient| + 8 <= U32_MAX && |b.recipient| + 8 <= U32_MAX
    ensures DepositLeaf(a) == DepositLeaf(b) <==>
      a.key == b.key && a.maxFee == b.maxFee && a.recipient == b.recipient
  {
    if DepositLeaf(a) == DepositLeaf(b) {
      DepositLeafParts(a);
      DepositLeafParts(b);
      DepositDataInjective(a, b);
      var x, y := PushData(a.key).value + [0xac], PushData(b.key).value + [0xac];
      assert [0x75] + PushData(a.key).value + [0xac] == [0x75] + x;
      assert [0x75] + PushData(b.key).value + [0xac] == [0x75] + y;
      assert x == ([0x75] + x)[1..] && y == ([0x75] + y)[1..];
    }
  }

  /** A lock time, the check of it, then the user's script. */
  lemma ReclaimLeafParts(d: Deposit)
    ensures GetScriptNumber(ReclaimLeaf(d)) == Some((d.lockTime, [0xb2] + d.userScript))
  {
    assert ReclaimLeaf(d) == ScriptNumber(d.lockTime) + ([0xb2] + d.userScript);
    GetScriptNumberFront(d.lockTime, [0xb2] + d.userScript);
  }

  /** The reclaim script fixes lock time and user script. */
  lemma ReclaimLeafInjective(a: Deposit, b: Deposit)
    ensures ReclaimLeaf(a) == ReclaimLeaf(b) <==> a.lockTime == b.lockTime && a.userScript == b.userScript
  {
    var x, y := [0xb2] + a.userScript, [0xb2] + b.userScript;
    ReclaimLeafParts(a);
    ReclaimLeafParts(b);
    assert x[1..] == a.userScript && y[1..] == b.userScript;
  }

  /** No deposit script is a reclaim script. */
  lemma LeavesDiffer(a: Deposit, b: Deposit)
    requires |a.recipient| + 8 <= U32_MAX
    ensures DepositLeaf(a).value != ReclaimLeaf(b)
  {
    var header := PushHeader(|DepositData(a)|).value;
    assert DepositLeaf(a).value[0] == header[0];
    assert ReclaimLeaf(b)[0] == ScriptNumber(b.lockTime)[0];
  }

  // ---------- The Merkle root ----------

  const TAP_LEAF: seq<byte> := [0x54, 0x61, 0x70, 0x4c, 0x65, 0x61, 0x66]
  const TAP_BRANCH: seq<byte> := [0x54, 0x61, 0x70, 0x42, 0x72, 0x61, 0x6e, 0x63, 0x68]

  function Tagged(sha: Sha, tag: seq<byte>, data: seq<byte>): seq<byte>
  {
    sha(tag) + sha(tag) + data
  }

  function LeafPreimage(script: seq<byte>): seq<byte>
    requires |script| <= U64_MAX
  {
    [0xc0] + CompactSize(|script|) + script
  }

  lemma LeafPreimageInjective(a: seq<byte>, b: seq<byte>)
    requires |a| <= U64_MAX && |b| <= U64_MAX
    ensures LeafPreimage(a) == LeafPreimage(b) <==> a == b
  {
    GetCompactSizeFront(|a|, a);
    GetCompactSizeFront(|b|, b);
    assert LeafPreimage(a)[1..] == CompactSize(|a|) + a;
    assert LeafPreimage(b)[1..] == CompactSize(|b|) + b;
  }

  /** The order of byte strings of one length. */
  predicate AtMost(a: seq<byte>, b: seq<byte>)
    requires |a| == |b|
  {
    a == [] || a[0] < b[0] || (a[0] == b[0] && AtMost(a[1..], b[1..]))
  }

  function BranchPreimage(left: Hash32, right: Hash32): seq<byte>
  {
    if AtMost(left, right) then left + right else right + left
  }

  lemma {:induction false} AtMostIsAnOrder(a: seq<byte>, b: seq<byte>)
    requires |a| == |b|
    ensures AtMost(a, b) || AtMost(b, a)
    ensures AtMost(a, b) && AtMost(b, a) ==> a == b
    decreases |a|
  {
    if a != [] {
      AtMostIsAnOrder(a[1..], b[1..]);
      assert a == [a[0]] + a[1..] && b == [b[0]] + b[1..];
    }
  }

  /** One byte string is below another where they first differ. */
  ghost predicate Below(a: seq<byte>, b: seq<byte>)
  {
    exists i :: 0 <= i < |a| && i < |b| && a[..i] == b[..i] && a[i] < b[i]
  }

  lemma {:induction false} AtMostIff(a: seq<byte>, b: seq<byte>)
    requires |a| == |b|
    ensures AtMost(a, b) <==> a == b || Below(a, b)
    decreases |a|
  {
    if a != [] {
      AtMostIff(a[1..], b[1..]);
      assert a == [a[0]] + a[1..] && b == [b[0]] + b[1..];
      if Below(a[1..], b[1..]) && a[0] == b[0] {
        var i :| 0 <= i < |a| - 1 && a[1..][..i] == b[1..][..i] && a[1..][i] < b[1..][i];
        assert a[..i + 1] == [a[0]] + a[1..][..i] && b[..i + 1] == [b[0]] + b[1..][..i];
      }
      if Below(a, b) {
        var i :| 0 <= i < |a| && i < |b| && a[..i] == b[..i] && a[i] < b[i];
        if i > 0 {
          assert a[0] == a[..i][0] && b[0] == b[..i][0];
          assert a[1..][..i - 1] == a[..i][1..] && b[1..][..i - 1] == b[..i][1..];
          assert a[1..][i - 1] < b[1..][i - 1];
        }
      }
    }
  }

  /** A branch is over an unordered pair, and fixes it. */
  lemma BranchPreimagePair(a: Hash32, b: Hash32, c: Hash32, d: Hash32)
    ensures BranchPreimage(a, b) == BranchPreimage(c, d) <==> (a == c && b == d) || (a == d && b == c)
  {
    AtMostIsAnOrder(a, b);
    AtMostIsAnOrder(c, d);
    var x, y := BranchPreimage(a, b), BranchPreimage(c, d);
    assert x[..32] == (if AtMost(a, b) then a else b) && x[32..] == (if AtMost(a, b) then b else a);
    assert y[..32] == (if AtMost(c, d) then c else d) && y[32..] == (if AtMost(c, d) then d else c);
  }

  /** The hash input of a leaf. */
  function LeafInput(sha: Sha, script: seq<byte>): seq<byte>
    requires |script| <= U64_MAX
  {
    Tagged(sha, TAP_LEAF, LeafPreimage(script))
  }

  lemma LeafInputInjective(sha: Sha, a: seq<byte>, b: seq<byte>)
    requires |a| <= U64_MAX && |b| <= U64_MAX
    ensures LeafInput(sha, a) == LeafInput(sha, b) <==> a == b
  {
    LeafPreimageInjective(a, b);
    var tag := sha(TAP_LEAF) + sha(TAP_LEAF);
    assert LeafInput(sha, a)[|tag|..] == LeafPreimage(a) && LeafInput(sha, b)[|tag|..] == LeafPreimage(b);
  }

  /** The hash input of the branch over a deposit's two leaves. */
  function RootInput(sha: Sha, deposit: seq<byte>, reclaim: seq<byte>): seq<byte>
    requires |deposit| <= U64_MAX && |reclaim| <= U64_MAX
  {
    Tagged(sha, TAP_BRANCH, BranchPreimage(sha(LeafInput(sha, deposit)), sha(LeafInput(sha, reclaim))))
  }

  /** Every length fits the machine word that holds it. */
  predicate Fits(d: Deposit)
  {
    |d.recipient| + 8 <= U32_MAX && |ReclaimLeaf(d)| <= U64_MAX
  }

  function MerkleRoot(sha: Sha, d: Deposit): Result<Hash32, AddressError>
    requires |ReclaimLeaf(d)| <= U64_MAX
  {
    var deposit :- DepositLeaf(d);
    Ok(sha(RootInput(sha, deposit, ReclaimLeaf(d))))
  }

  function Ascii(text: string): seq<byte>
  {
    seq(|text|, i requires 0 <= i < |text| => (text[i] as int) % 256)
  }

  /** A tagged hash, as BIP 340 has it. */
  ghost function TaggedHash(sha: Sha, tag: string, data: seq<byte>): Hash32
  {
    sha(sha(Ascii(tag)) + sha(Ascii(tag)) + data)
  }

  /** The hash of a leaf of version 0xc0, as BIP 341 has it. */
  ghost function TapLeafHash(sha: Sha, script: seq<byte>): Hash32
    requires |script| <= U64_MAX
  {
    TaggedHash(sha, "TapLeaf", [0xc0] + CompactSize(|script|) + script)
  }

  lemma Tags()
    ensures TAP_LEAF == Ascii("TapLeaf") && TAP_BRANCH == Ascii("TapBranch")
  {
  }

  /** The root is the branch over the two leaves, the lower hash first; only data too long to push has none. */
  lemma MerkleRootIs(sha: Sha, d: Deposit) returns (low: Hash32, high: Hash32)
    requires |ReclaimLeaf(d)| <= U64_MAX
    ensures MerkleRoot(sha, d).Err? <==> |d.recipient| + 8 > U32_MAX
    ensures Fits(d) ==>
      var x, y := TapLeafHash(sha, DepositLeaf(d).value), TapLeafHash(sha, ReclaimLeaf(d));
      && ((low == x && high == y) || (low == y && high == x)) && (low == high || Below(low, high))
      && MerkleRoot(sha, d) == Ok(TaggedHash(sha, "TapBranch", low + high))
  {
    low, high := seq(32, _ => 0), seq(32, _ => 0);
    if Fits(d) {
      Tags();
      var x, y := sha(LeafInput(sha, DepositLeaf(d).value)), sha(LeafInput(sha, ReclaimLeaf(d)));
      AtMostIsAnOrder(x, y);
      low, high := if AtMost(x, y) then x else y, if AtMost(x, y) then y else x;
      AtMostIff(low, high);
    }
  }

  /** Neither the leaves of the two deposits nor their branches meet a collision. */
  ghost predicate RootsCollisionless(sha: Sha, a: Deposit, b: Deposit)
    requires Fits(a) && Fits(b)
  {
    var x, x', y, y' := DepositLeaf(a).value, ReclaimLeaf(a), DepositLeaf(b).value, ReclaimLeaf(b);
    && NoCollision(sha, LeafInput(sha, x), LeafInput(sha, y))
    && NoCollision(sha, LeafInput(sha, x), LeafInput(sha, y'))
    && NoCollision(sha, LeafInput(sha, x'), LeafInput(sha, y))
    && NoCollision(sha, LeafInput(sha, x'), LeafInput(sha, y'))
    && NoCollision(sha, RootInput(sha, x, x'), RootInput(sha, y, y'))
  }

  lemma RootInputPair(sha: Sha, x: seq<byte>, x': seq<byte>, y: seq<byte>, y': seq<byte>)
    requires |x| <= U64_MAX && |x'| <= U64_MAX && |y| <= U64_MAX && |y'| <= U64_MAX
    requires RootInput(sha, x, x') == RootInput(sha, y, y')
    ensures var h, h' := sha(LeafInput(sha, x)), sha(LeafInput(sha, x'));
            var k, k' := sha(LeafInput(sha, y)), sha(LeafInput(sha, y'));
            (h == k && h' == k') || (h == k' && h' == k)
  {
    var h, h' := sha(LeafInput(sha, x)), sha(LeafInput(sha, x'));
    var k, k' := sha(LeafInput(sha, y)), sha(LeafInput(sha, y'));
    var tag := sha(TAP_BRANCH) + sha(TAP_BRANCH);
    assert RootInput(sha, x, x')[|tag|..] == BranchPreimage(h, h');
    assert RootInput(sha, y, y')[|tag|..] == BranchPreimage(k, k');
    BranchPreimagePair(h, h', k, k');
  }

  /** The root fixes all five parameters of a deposit. */
  lemma RootFixesDeposit(sha: Sha, a: Deposit, b: Deposit)
    requires Fits(a) && Fits(b) && RootsCollisionless(sha, a, b)
    ensures MerkleRoot(sha, a) == MerkleRoot(sha, b) <==> a == b
  {
    if MerkleRoot(sha, a) == MerkleRoot(sha, b) {
      var x, x', y, y' := DepositLeaf(a).value, ReclaimLeaf(a), DepositLeaf(b).value, ReclaimLeaf(b);
      RootInputPair(sha, x, x', y, y');
      LeafInputInjective(sha, x, y);
      LeafInputInjective(sha, x, y');
      LeafInputInjective(sha, x', y');
      LeavesDiffer(a, b);
      DepositLeafInjective(a, b);
      ReclaimLeafInjective(a, b);
    }
  }

  // ---------- The output key ----------

  /** The curve: which bytes are the abscissa of a point, which are a scalar, and the abscissa of a point moved by a
      scalar times the generator, unless that is the point at infinity. */
  datatype Curve = Curve(isPoint: Hash32 -> bool, isScalar: Hash32 -> bool, moved: (Hash32, Hash32) -> Option<Hash32>)

  const TAP_TWEAK: seq<byte> := [0x54, 0x61, 0x70, 0x54, 0x77, 0x65, 0x61, 0x6b]

  /** The internal key, a point nobody has a discrete logarithm of. */
  const NUMS: Hash32 :=
    [0x50, 0x92, 0x9b, 0x74, 0xc1, 0xa0, 0x49, 0x54, 0xb7, 0x8b, 0x4b, 0x60, 0x35, 0xe9, 0x7a, 0x5e,
     0x07, 0x8a, 0x5a, 0x0f, 0x28, 0xec, 0x96, 0xd5, 0x47, 0xbf, 0xee, 0x9a, 0xce, 0x80, 0x3a, 0xc0]

  function TweakInput(sha: Sha, root: Hash32): seq<byte> { Tagged(sha, TAP_TWEAK, NUMS + root) }

  function OutputKey(sha: Sha, curve: Curve, d: Deposit): Result<Hash32, AddressError>
    requires |ReclaimLeaf(d)| <= U64_MAX
  {
    if !curve.isPoint(d.key) then Err(InvalidBitcoinAddress) else
    var root :- MerkleRoot(sha, d);
    if !curve.isPoint(NUMS) then Err(InvalidBitcoinAddress) else
    var tweak := sha(TweakInput(sha, root));
    if !curve.isScalar(tweak) then Err(InvalidBitcoinAddress) else
    match curve.moved(NUMS, tweak)
    case None => Err(InvalidBitcoinAddress)
    case Some(key) => Ok(key)
  }

  /** The output key is the internal key tweaked by the root, as BIP 341 has it; there is one exactly when the
      aggregate key is on the curve, the data can be pushed, and the tweak is good. */
  lemma OutputKeyIs(sha: Sha, curve: Curve, d: Deposit, key: Hash32)
    requires Fits(d) && curve.isPoint(NUMS)
    ensures var tweak := TaggedHash(sha, "TapTweak", NUMS + MerkleRoot(sha, d).value);
            OutputKey(sha, curve, d) == Ok(key) <==>
              curve.isPoint(d.key) && curve.isScalar(tweak) && curve.moved(NUMS, tweak) == Some(key)
  {
    assert TAP_TWEAK == Ascii("TapTweak");
  }

  /** The tweaks of two deposits are the same hash only of the same root, and move the internal key to the same
      abscissa only when they are the same. */
  ghost predicate TweaksCollisionless(sha: Sha, curve: Curve, a: Deposit, b: Deposit)
    requires Fits(a) && Fits(b)
  {
    var x, y := TweakInput(sha, MerkleRoot(sha, a).value), TweakInput(sha, MerkleRoot(sha, b).value);
    && NoCollision(sha, x, y)
    && (curve.moved(NUMS, sha(x)) == curve.moved(NUMS, sha(y)) ==> sha(x) == sha(y))
  }

  /** Two deposits that have output keys have the same one exactly when they are the same deposit. */
  lemma OutputKeyFixesDeposit(sha: Sha, curve: Curve, a: Deposit, b: Deposit)
    requires Fits(a) && Fits(b) && RootsCollisionless(sha, a, b) && TweaksCollisionless(sha, curve, a, b)
    requires OutputKey(sha, curve, a).Ok? && OutputKey(sha, curve, b).Ok?
    ensures OutputKey(sha, curve, a) == OutputKey(sha, curve, b) <==> a == b
  {
    if OutputKey(sha, curve, a) == OutputKey(sha, curve, b) {
      var x, y := MerkleRoot(sha, a).value, MerkleRoot(sha, b).value;
      var tag := sha(TAP_TWEAK) + sha(TAP_TWEAK);
      assert TweakInput(sha, x)[|tag|..] == NUMS + x && TweakInput(sha, y)[|tag|..] == NUMS + y;
      assert (NUMS + x)[32..] == x && (NUMS + y)[32..] == y;
      RootFixesDeposit(sha, a, b);
    }
  }

  type CompressedKey = s: seq<byte> | |s| == 33 witness seq(33, _ => 0)

  /** The deposit of a waterfall commitment: a fixed fee and lock time, and a reclaim that never succeeds. */
  function WaterfallDeposit(key: CompressedKey, recipient: seq<byte>): Deposit
  {
    Deposit(key[1..], recipient, 80_000, 0xffff, [0x6a])
  }

  /** Its reclaim script, byte for byte, and the fee its deposit script pushes. */
  lemma WaterfallBytes(key: CompressedKey, recipient: seq<byte>)
    ensures ReclaimLeaf(WaterfallDeposit(key, recipient)) == [3, 0xff, 0xff, 0, 0xb2, 0x6a]
    ensures DepositData(WaterfallDeposit(key, recipient)) == [0, 0, 0, 0, 0, 0x01, 0x38, 0x80] + recipient
  {
    assert BigEndian(0, 5) == [0, 0, 0, 0, 0] by {
      assert BigEndian(0, 3) == [0, 0, 0];
    }
    assert BigEndian(1, 6) == BigEndian(0, 5) + [1];
    assert BigEndian(312, 7) == BigEndian(1, 6) + [56];
    assert BigEndian(80_000, 8) == BigEndian(312, 7) + [128];
  }

  /** Its output key fixes the recipient and the aggregate key, but for the byte that says which root was taken. */
  lemma WaterfallKeyFixes(sha: Sha, curve: Curve, key: CompressedKey, recipient: seq<byte>, key': CompressedKey,
                          recipient': seq<byte>)
    requires |recipient| + 8 <= U32_MAX && |recipient'| + 8 <= U32_MAX
    ensures Fits(WaterfallDeposit(key, recipient)) && Fits(WaterfallDeposit(key', recipient'))
    ensures var a, b := WaterfallDeposit(key, recipient), WaterfallDeposit(key', recipient');
            RootsCollisionless(sha, a, b) && TweaksCollisionless(sha, curve, a, b)
            && OutputKey(sha, curve, a).Ok? && OutputKey(sha, curve, b).Ok? ==>
              (OutputKey(sha, curve, a) == OutputKey(sha, curve, b)
               <==> key[1..] == key'[1..] && recipient == recipient')
  {
    var a, b := WaterfallDeposit(key, recipient), WaterfallDeposit(key', recipient');
    if RootsCollisionless(sha, a, b) && TweaksCollisionless(sha, curve, a, b)
       && OutputKey(sha, curve, a).Ok? && OutputKey(sha, curve, b).Ok? {
      OutputKeyFixesDeposit(sha, curve, a, b);
    }
  }
}
