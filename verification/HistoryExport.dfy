/**
 The authentication history a checkpoint travels with: the blocks of the source's tenure so far, and the start of
 the tenure before it.
 */
module HistoryExport {
  import opened Prelude
  import opened Nakamoto
  import opened SignedHeader
  import TenureShape

  const HISTORY_LIMIT: nat := 4096

  datatype ExportError = Absent(id: Hash32) | WrongRoot | TooLong | HeightJump | NoProof

  datatype Export = Export(blocks: seq<Block>, boundary: Block, proof: seq<byte>)

  /** A canonical archive, and the hash its identifiers are made with. */
  datatype Archive = Archive(sha: Sha, rows: map<Hash32, Block>)

  function Id(a: Archive, b: Block): Hash32 { BlockId(a.sha, b.header) }

  /** A row that is not the block it is filed under is refused. */
  function Lookup(a: Archive, id: Hash32): Result<Block, ExportError>
  {
    if id in a.rows && Id(a, a.rows[id]) == id then Ok(a.rows[id]) else Err(Absent(id))
  }

  predicate StartsNewTenure(b: Block)
  {
    exists i :: 0 <= i < |b.txs| && b.txs[i].payload.Change? && b.txs[i].payload.change.cause == BlockFound
  }

  function VrfProof(txs: seq<Transaction>): Option<seq<byte>>
  {
    if txs == [] then None
    else if txs[0].payload.NakamotoCoinbase? then Some(txs[0].payload.vrfProof)
    else VrfProof(txs[1..])
  }

  predicate Adjoins(parent: Block, child: Block)
  {
    parent.header.chainLength < U64_MAX && parent.header.chainLength + 1 == child.header.chainLength
  }

  // ---------- The reference ----------

  /** The archive holds the block under its own identifier. */
  ghost predicate Archived(a: Archive, id: Hash32, b: Block) { id in a.rows && a.rows[id] == b && Id(a, b) == id }

  ghost predicate IsParent(a: Archive, parent: Block, child: Block)
  {
    Id(a, parent) == child.header.parentBlockId && child.header.chainLength == parent.header.chainLength + 1
  }

  /** The proof of the first coinbase that has one. */
  ghost predicate CarriesProof(txs: seq<Transaction>, proof: seq<byte>)
  {
    exists i :: && 0 <= i < |txs| && txs[i].payload.NakamotoCoinbase? && txs[i].payload.vrfProof == proof
                && forall j :: 0 <= j < i ==> !txs[j].payload.NakamotoCoinbase?
  }

  lemma {:induction false} VrfProofIff(txs: seq<Transaction>, proof: seq<byte>)
    ensures VrfProof(txs) == Some(proof) <==> CarriesProof(txs, proof)
    ensures VrfProof(txs).None? <==> forall i :: 0 <= i < |txs| ==> !txs[i].payload.NakamotoCoinbase?
    decreases |txs|
  {
    if txs != [] && !txs[0].payload.NakamotoCoinbase? {
      VrfProofIff(txs[1..], proof);
      assert forall i :: 1 <= i < |txs| ==> txs[i] == txs[1..][i - 1];
      if CarriesProof(txs[1..], proof) {
        var i :| && 0 <= i < |txs| - 1 && txs[1..][i].payload.NakamotoCoinbase?
                 && txs[1..][i].payload.vrfProof == proof
                 && forall j :: 0 <= j < i ==> !txs[1..][j].payload.NakamotoCoinbase?;
        assert txs[i + 1] == txs[1..][i];
      }
    }
  }

  /** A block that passes the tenure check starts a new tenure here exactly when it does there, and its proof is
      then in its second transaction. */
  lemma StartsAsChecked(b: Block)
    requires TenureShape.CheckTenureTransactions(b).None?
    ensures StartsNewTenure(b) <==> TenureShape.StartsTenure(b)
    ensures StartsNewTenure(b) ==>
              VrfProof(b.txs) == if b.txs[1].payload.NakamotoCoinbase? then Some(b.txs[1].payload.vrfProof) else None
  {
    TenureShape.AcceptedShapes(b);
    if TenureShape.StartsTenure(b) {
      assert b.txs[0].payload.Change?;
      if b.txs[1].payload.NakamotoCoinbase? {
        VrfProofIff(b.txs, b.txs[1].payload.vrfProof);
      } else {
        VrfProofIff(b.txs, []);
      }
    }
  }

  /** A run of archived blocks, each the parent of the next, that ends at an identifier and of which exactly
      the first starts a tenure. */
  ghost predicate IsTenure(a: Archive, id: Hash32, blocks: seq<Block>)
  {
    && blocks != [] && Id(a, blocks[|blocks| - 1]) == id
    && (forall i :: 0 <= i < |blocks| ==> Archived(a, Id(a, blocks[i]), blocks[i]))
    && (forall i :: 1 <= i < |blocks| ==> IsParent(a, blocks[i - 1], blocks[i]))
    && (forall i :: 0 <= i < |blocks| ==> (StartsNewTenure(blocks[i]) <==> i == 0))
  }

  /** What an export of a source is: its tenure so far, no longer than the limit and of the published root; and
      the start, with its proof, of the tenure that ends at the parent of its first block. */
  ghost predicate IsExport(a: Archive, source: Hash32, root: Hash32, e: Export, earlier: seq<Block>)
  {
    && IsTenure(a, source, e.blocks) && |e.blocks| <= 4096
    && e.blocks[|e.blocks| - 1].header.stateRoot == root
    && IsTenure(a, e.blocks[0].header.parentBlockId, earlier)
    && IsParent(a, earlier[|earlier| - 1], e.blocks[0])
    && e.boundary == earlier[0] && CarriesProof(earlier[0].txs, e.proof)
  }

  /** Blocks down to a last one, oldest first: each the parent of the next, and archived but perhaps the last. */
  ghost predicate LeadsTo(a: Archive, path: seq<Block>, last: Block)
  {
    && path != [] && path[|path| - 1] == last
    && (forall i :: 1 <= i < |path| ==> IsParent(a, path[i - 1], path[i]))
    && forall i :: 0 <= i < |path| - 1 ==> Archived(a, Id(a, path[i]), path[i])
  }

  /** A walk can not go on from a block: its parent is not archived, or is not one lower. */
  ghost predicate Stuck(a: Archive, oldest: Block, error: ExportError)
  {
    var id := oldest.header.parentBlockId;
    if id in a.rows && Id(a, a.rows[id]) == id then
      a.rows[id].header.chainLength + 1 != oldest.header.chainLength && error == HeightJump
    else error == Absent(id)
  }

  /** The walk to the start of a block's tenure stopped short of it: at 4096 blocks, or where it could not go on. */
  ghost predicate SuffixFails(a: Archive, path: seq<Block>, last: Block, error: ExportError)
  {
    && LeadsTo(a, path, last) && |path| <= 4096 && (forall i :: 0 <= i < |path| ==> !StartsNewTenure(path[i]))
    && if |path| == 4096 then error == TooLong else Stuck(a, path[0], error)
  }

  ghost predicate BoundaryFails(a: Archive, path: seq<Block>, first: Block, error: ExportError)
  {
    && LeadsTo(a, path, first) && (forall i :: 0 <= i < |path| - 1 ==> !StartsNewTenure(path[i]))
    && Stuck(a, path[0], error)
  }

  /** Why there is no export: the first of these to apply. */
  ghost predicate ExportFails(a: Archive, source: Hash32, root: Hash32, error: ExportError)
  {
    if !(source in a.rows && Id(a, a.rows[source]) == source) then error == Absent(source)
    else if a.rows[source].header.stateRoot != root then error == WrongRoot
    else
      || (exists path :: SuffixFails(a, path, a.rows[source], error))
      || exists tenure :: IsTenure(a, source, tenure) && |tenure| <= 4096 && StartFails(a, tenure[0], error)
  }

  /** Why the tenure before a first block has no start, or no proof in it. */
  ghost predicate StartFails(a: Archive, first: Block, error: ExportError)
  {
    || (exists path :: BoundaryFails(a, path, first, error))
    || (error == NoProof && exists earlier: seq<Block> ::
          && IsTenure(a, first.header.parentBlockId, earlier) && IsParent(a, earlier[|earlier| - 1], first)
          && forall i :: 0 <= i < |earlier[0].txs| ==> !earlier[0].txs[i].payload.NakamotoCoinbase?)
  }

  lemma LeadsFurther(a: Archive, parent: Block, path: seq<Block>, last: Block)
    requires LeadsTo(a, path, last) && Lookup(a, path[0].header.parentBlockId) == Ok(parent) && Adjoins(parent, path[0])
    ensures LeadsTo(a, [parent] + path, last)
  {
  }

  // ---------- Walking back ----------

  /** The tenure up to a block, walking back from it. */
  function TenureUpTo(a: Archive, b: Block): (r: Result<seq<Block>, ExportError>)
    ensures r.Ok? ==> |r.value| >= if StartsNewTenure(b) then 1 else 2
    decreases b.header.chainLength
  {
    if StartsNewTenure(b) then Ok([b]) else
    var parent :- Lookup(a, b.header.parentBlockId);
    if !Adjoins(parent, b) then Err(HeightJump) else
    var before :- TenureUpTo(a, parent);
    Ok(before + [b])
  }

  /** Walking back finds a tenure exactly when there is one, and there is at most one. */
  lemma {:induction false} TenureUpToIff(a: Archive, b: Block, blocks: seq<Block>)
    requires Lookup(a, Id(a, b)) == Ok(b)
    ensures TenureUpTo(a, b) == Ok(blocks) <==> IsTenure(a, Id(a, b), blocks)
    decreases b.header.chainLength
  {
    if IsTenure(a, Id(a, b), blocks) {
      TenureFound(a, b, blocks);
    } else if TenureUpTo(a, b) == Ok(blocks) {
      FoundIsTenure(a, b);
      assert false;
    }
  }

  lemma {:induction false} FoundIsTenure(a: Archive, b: Block)
    requires Lookup(a, Id(a, b)) == Ok(b) && TenureUpTo(a, b).Ok?
    ensures IsTenure(a, Id(a, b), TenureUpTo(a, b).value)
    ensures var blocks := TenureUpTo(a, b).value; blocks[|blocks| - 1] == b
    decreases b.header.chainLength
  {
    if !StartsNewTenure(b) {
      FoundIsTenure(a, Lookup(a, b.header.parentBlockId).value);
    }
  }

  lemma TenurePrefix(a: Archive, blocks: seq<Block>, id: Hash32)
    requires IsTenure(a, id, blocks) && |blocks| > 1
    ensures IsTenure(a, Id(a, blocks[|blocks| - 2]), blocks[..|blocks| - 1])
  {
  }

  lemma {:induction false} TenureFound(a: Archive, b: Block, blocks: seq<Block>)
    requires Lookup(a, Id(a, b)) == Ok(b) && IsTenure(a, Id(a, b), blocks)
    ensures TenureUpTo(a, b) == Ok(blocks)
    decreases b.header.chainLength
  {
    var n := |blocks| - 1;
    assert blocks[n] == b;
    if n == 0 {
      assert blocks == [b];
    } else {
      TenurePrefix(a, blocks, Id(a, b));
      TenureFound(a, blocks[n - 1], blocks[..n]);
      assert blocks == blocks[..n] + [b];
    }
  }

  // ---------- The export ----------

  function Reversed<T>(s: seq<T>): seq<T>
  {
    if s == [] then [] else [s[|s| - 1]] + Reversed(s[..|s| - 1])
  }

  /** The tenure a walk will have found once it is done: what is still to be found, then what it has passed. */
  ghost function Onward(before: Result<seq<Block>, ExportError>, passed: seq<Block>): Result<seq<Block>, ExportError>
  {
    if before.Ok? then Ok(before.value + passed) else before
  }

  /** Walk back from the source to the start of its tenure, refusing more than the limit. */
  method CollectSuffix(a: Archive, source: Block) returns (r: Result<seq<Block>, ExportError>)
    ensures r.Ok? <==> TenureUpTo(a, source).Ok? && |TenureUpTo(a, source).value| <= HISTORY_LIMIT
    ensures r.Ok? ==> Ok(Reversed(r.value)) == TenureUpTo(a, source)
    ensures r.Err? ==> exists path :: SuffixFails(a, path, source, r.error)
  {
    var reversed := [source];
    ghost var passed: seq<Block> := [];
    ghost var path := [source];
    OnwardStart(TenureUpTo(a, source));
    while !StartsNewTenure(reversed[|reversed| - 1])
      invariant reversed != [] && |reversed| <= HISTORY_LIMIT && |reversed| == |passed| + 1
      invariant Reversed(reversed) == [reversed[|reversed| - 1]] + passed
      invariant LeadsTo(a, path, source) && path[0] == reversed[|reversed| - 1] && |path| == |reversed|
      invariant forall i :: 1 <= i < |path| ==> !StartsNewTenure(path[i])
      invariant TenureUpTo(a, source) == Onward(TenureUpTo(a, reversed[|reversed| - 1]), passed)
      decreases reversed[|reversed| - 1].header.chainLength
    {
      var child := reversed[|reversed| - 1];
      if |reversed| == HISTORY_LIMIT {
        assert SuffixFails(a, path, source, TooLong);
        return Err(TooLong);
      }
      var found := Lookup(a, child.header.parentBlockId);
      if found.Err? {
        assert SuffixFails(a, path, source, found.error);
        return Err(found.error);
      }
      var parent := found.value;
      if !Adjoins(parent, child) {
        assert SuffixFails(a, path, source, HeightJump);
        return Err(HeightJump);
      }
      LeadsFurther(a, parent, path, source);
      path := [parent] + path;
      OnwardStep(TenureUpTo(a, parent), child, passed);
      passed := [child] + passed;
      assert (reversed + [parent])[..|reversed|] == reversed;
      reversed := reversed + [parent];
    }
    return Ok(reversed);
  }

  lemma OnwardStart(before: Result<seq<Block>, ExportError>)
    ensures Onward(before, []) == before
  {
    if before.Ok? {
      assert before.value + [] == before.value;
    }
  }

  lemma OnwardStep(before: Result<seq<Block>, ExportError>, child: Block, passed: seq<Block>)
    ensures Onward(Onward(before, [child]), passed) == Onward(before, [child] + passed)
  {
    if before.Ok? {
      assert before.value + [child] + passed == before.value + ([child] + passed);
    }
  }

  /** The nearest tenure start at or before an identifier, walking back from a child of that height. */
  function BoundaryFrom(a: Archive, childHeight: nat, id: Hash32): Result<Block, ExportError>
    decreases childHeight
  {
    var parent :- Lookup(a, id);
    if parent.header.chainLength == U64_MAX || parent.header.chainLength + 1 != childHeight then Err(HeightJump)
    else if StartsNewTenure(parent) then Ok(parent)
    else BoundaryFrom(a, parent.header.chainLength, parent.header.parentBlockId)
  }

  method FindBoundary(a: Archive, first: Block) returns (r: Result<Block, ExportError>)
    ensures r == BoundaryFrom(a, first.header.chainLength, first.header.parentBlockId)
    ensures r.Err? ==> exists path :: BoundaryFails(a, path, first, r.error)
  {
    ghost var path := [first];
    var childHeight: nat, id := first.header.chainLength, first.header.parentBlockId;
    while true
      invariant BoundaryFrom(a, first.header.chainLength, first.header.parentBlockId)
          == BoundaryFrom(a, childHeight, id)
      invariant LeadsTo(a, path, first) && path[0].header.chainLength == childHeight
      invariant path[0].header.parentBlockId == id && forall i :: 0 <= i < |path| - 1 ==> !StartsNewTenure(path[i])
      decreases childHeight
    {
      var found := Lookup(a, id);
      if found.Err? {
        assert BoundaryFails(a, path, first, found.error);
        return Err(found.error);
      }
      var parent := found.value;
      if parent.header.chainLength == U64_MAX || parent.header.chainLength + 1 != childHeight {
        assert BoundaryFails(a, path, first, HeightJump);
        return Err(HeightJump);
      }
      if StartsNewTenure(parent) {
        return Ok(parent);
      }
      LeadsFurther(a, parent, path, first);
      path := [parent] + path;
      childHeight, id := parent.header.chainLength, parent.header.parentBlockId;
    }
  }

  /** The boundary walk finds the first block of the tenure that ends at the parent. */
  lemma {:induction false} BoundaryStartsTenure(a: Archive, child: Block)
    ensures var parent := Lookup(a, child.header.parentBlockId);
            var boundary := BoundaryFrom(a, child.header.chainLength, child.header.parentBlockId);
            && (boundary.Ok? <==> parent.Ok? && Adjoins(parent.value, child) && TenureUpTo(a, parent.value).Ok?)
            && (boundary.Ok? ==> boundary.value == TenureUpTo(a, parent.value).value[0])
    decreases child.header.chainLength
  {
    var parent := Lookup(a, child.header.parentBlockId);
    if parent.Ok? && Adjoins(parent.value, child) && !StartsNewTenure(parent.value) {
      BoundaryStartsTenure(a, parent.value);
    }
  }

  /** What walking back from a source finds. */
  ghost predicate Found(a: Archive, source: Hash32, root: Hash32, e: Export, earlier: seq<Block>)
  {
    && Lookup(a, source).Ok? && Lookup(a, source).value.header.stateRoot == root
    && TenureUpTo(a, Lookup(a, source).value) == Ok(e.blocks) && |e.blocks| <= HISTORY_LIMIT
    && FoundStart(a, e.blocks[0], e, earlier)
  }

  ghost predicate FoundStart(a: Archive, first: Block, e: Export, earlier: seq<Block>)
  {
    var parent := Lookup(a, first.header.parentBlockId);
    && parent.Ok? && Adjoins(parent.value, first) && TenureUpTo(a, parent.value) == Ok(earlier)
    && e.boundary == earlier[0] && VrfProof(earlier[0].txs) == Some(e.proof)
  }

  lemma ExportIsFound(a: Archive, source: Hash32, root: Hash32, e: Export, earlier: seq<Block>)
    requires IsExport(a, source, root, e, earlier)
    ensures Found(a, source, root, e, earlier)
  {
    TenureFound(a, e.blocks[|e.blocks| - 1], e.blocks);
    TenureFound(a, earlier[|earlier| - 1], earlier);
    VrfProofIff(earlier[0].txs, e.proof);
  }

  lemma FoundIsExport(a: Archive, source: Hash32, root: Hash32, e: Export, earlier: seq<Block>)
    requires Found(a, source, root, e, earlier)
    ensures IsExport(a, source, root, e, earlier)
  {
    FoundIsTenure(a, Lookup(a, source).value);
    FoundIsTenure(a, Lookup(a, e.blocks[0].header.parentBlockId).value);
    VrfProofIff(earlier[0].txs, e.proof);
  }

  /** Walking back finds whatever export there is. */
  lemma ExportsFound(a: Archive, source: Hash32, root: Hash32)
    ensures forall e, earlier :: IsExport(a, source, root, e, earlier) <==> Found(a, source, root, e, earlier)
  {
    forall e, earlier
      ensures IsExport(a, source, root, e, earlier) <==> Found(a, source, root, e, earlier)
    {
      if IsExport(a, source, root, e, earlier) {
        ExportIsFound(a, source, root, e, earlier);
      } else if Found(a, source, root, e, earlier) {
        FoundIsExport(a, source, root, e, earlier);
      }
    }
  }

  /** Export the authentication history of a source. */
  method ExportHistory(a: Archive, source: Hash32, root: Hash32) returns (r: Result<Export, ExportError>)
    ensures r.Ok? ==> exists earlier :: IsExport(a, source, root, r.value, earlier)
    ensures r.Err? ==> forall e, earlier :: !IsExport(a, source, root, e, earlier)
    ensures r.Err? ==> ExportFails(a, source, root, r.error)
  {
    ExportsFound(a, source, root);
    var newest := Lookup(a, source);
    if newest.Err? {
      return Err(newest.error);
    }
    if newest.value.header.stateRoot != root {
      return Err(WrongRoot);
    }
    var reversed := CollectSuffix(a, newest.value);
    if reversed.Err? {
      return Err(reversed.error);
    }
    var blocks := Reversed(reversed.value);
    FoundIsTenure(a, newest.value);
    ReversedFirst(reversed.value);
    var start := ExportStart(a, blocks[0]);
    if start.Err? {
      assert IsTenure(a, source, blocks);
      return Err(start.error);
    }
    r := Ok(Export(blocks, start.value.0, start.value.1));
    ghost var earlier :| FoundStart(a, blocks[0], Export([], start.value.0, start.value.1), earlier);
    assert Found(a, source, root, r.value, earlier);
  }

  lemma ReversedFirst<T>(s: seq<T>)
    requires s != []
    ensures Reversed(s) != [] && Reversed(s)[0] == s[|s| - 1]
  {
  }

  /** The start, and its proof, of the tenure before a first block. */
  method ExportStart(a: Archive, first: Block) returns (r: Result<(Block, seq<byte>), ExportError>)
    ensures r.Ok? ==> exists earlier :: FoundStart(a, first, Export([], r.value.0, r.value.1), earlier)
    ensures r.Err? ==> (forall e, earlier :: !FoundStart(a, first, e, earlier)) && StartFails(a, first, r.error)
  {
    var boundary := FindBoundary(a, first);
    BoundaryStartsTenure(a, first);
    if boundary.Err? {
      return Err(boundary.error);
    }
    ghost var parent := Lookup(a, first.header.parentBlockId).value;
    ghost var earlier := TenureUpTo(a, parent).value;
    FoundIsTenure(a, parent);
    VrfProofIff(boundary.value.txs, []);
    var proof := VrfProof(boundary.value.txs);
    if proof.None? {
      assert IsTenure(a, first.header.parentBlockId, earlier);
      return Err(NoProof);
    }
    r := Ok((boundary.value, proof.value));
    assert FoundStart(a, first, Export([], boundary.value, proof.value), earlier);
  }
}
