/** The generator's batch decoder (generator/decoder.py) and its agreement with the projector. */
module Decoder {
  import opened Coherence
  import opened Graphs
  import opened Hashing
  import opened Invariants
  import opened Kahn
  import opened Labels
  import opened Projection
  import opened RowHistory
  import opened SafeOrder
  import opened Search
  import opened Store
  import opened Texts

  datatype Block = Block(name: Label, draft: Draft)

  datatype DecodeReason = DuplicateLabel | MalformedNode | TargetMismatch | RepairNoChange

  datatype Decoded =
    | Staged(batch: Batch, order: seq<Label>, hashes: map<Label, Hash>)
    | DecodeError(reason: DecodeReason)

  // ---- identical duplicates ----

  /** Each block where it first appears. */
  function FirstBlocks(blocks: seq<Block>): seq<Block> {
    if blocks == [] then []
    else
      var earlier, last := FirstBlocks(blocks[..|blocks| - 1]), blocks[|blocks| - 1];
      if last in earlier then earlier else earlier + [last]
  }

  ghost predicate SameNameSameBlock(blocks: seq<Block>) {
    forall i, j :: 0 <= i < |blocks| && 0 <= j < |blocks| && blocks[i].name == blocks[j].name ==> blocks[i] == blocks[j]
  }

  ghost predicate DistinctNames(blocks: seq<Block>) {
    forall i, j :: 0 <= i < j < |blocks| ==> blocks[i].name != blocks[j].name
  }

  /** Collapses byte-identical repeats of a label; a label with two different bodies stays
      twice, and only then is the outcome rejected as a duplicate. */
  method DedupeIdenticalBlocks(parsed: seq<Block>) returns (result: seq<Block>)
    ensures forall b :: b in result <==> b in parsed
    ensures DistinctNames(result) <==> SameNameSameBlock(parsed)
    ensures SameNameSameBlock(parsed) ==> result == FirstBlocks(parsed)
  {
    var first: map<Label, nat> := map[];
    result := [];
    var i := 0;
    while i < |parsed|
      invariant 0 <= i <= |parsed|
      invariant forall x :: x in first ==> first[x] < |result| && result[first[x]].name == x
      invariant forall b :: b in result ==> b.name in first
      invariant Deduped(parsed[..i], result)
    {
      var entry := parsed[i];
      if entry.name !in first {
        DedupeStep(parsed, i, result, result + [entry]);
        first := first[entry.name := |result|];
        result := result + [entry];
      } else if result[first[entry.name]] == entry {
        DedupeStep(parsed, i, result, result);
        assert result[first[entry.name] := entry] == result;
        result := result[first[entry.name] := entry];
      } else {
        ghost var k := first[entry.name];
        assert result[k] in result;
        DedupeStep(parsed, i, result, result + [entry]);
        result := result + [entry];
      }
      i := i + 1;
    }
    TakeAll(parsed);
  }

  /** result is what deduplication makes of the blocks seen. */
  ghost predicate Deduped(seen: seq<Block>, result: seq<Block>) {
    && (forall b :: b in result <==> b in seen)
    && (DistinctNames(result) <==> SameNameSameBlock(seen))
    && (SameNameSameBlock(seen) ==> result == FirstBlocks(seen))
  }

  /** A block whose label is new, or comes with another body, is appended; a repeat is not. */
  lemma DedupeStep(parsed: seq<Block>, i: nat, result: seq<Block>, next: seq<Block>)
    requires i < |parsed| && Deduped(parsed[..i], result)
    requires var entry := parsed[i];
             || (entry in result && next == result)
             || (next == result + [entry] && entry !in result && (forall b :: b in result ==> b.name != entry.name))
             || (next == result + [entry] && exists b :: b in result && b.name == entry.name && b != entry)
    ensures Deduped(parsed[..i + 1], next)
  {
    var seen, entry := parsed[..i], parsed[i];
    FirstBlocksStep(parsed, i);
    if entry in result && next == result {
      ExtendSame(seen, result, entry);
    } else if b :| b in result && b.name == entry.name && b != entry {
      var k :| 0 <= k < |result| && result[k] == b;
      ExtendDifferent(seen, result, k, entry);
    } else {
      ExtendFresh(seen, result, entry);
    }
  }

  lemma FirstBlocksStep(parsed: seq<Block>, i: nat)
    requires i < |parsed|
    ensures parsed[..i + 1] == parsed[..i] + [parsed[i]]
    ensures SameNameSameBlock(parsed[..i + 1]) ==> SameNameSameBlock(parsed[..i])
    ensures var earlier := FirstBlocks(parsed[..i]);
            FirstBlocks(parsed[..i + 1]) == if parsed[i] in earlier then earlier else earlier + [parsed[i]]
  {
    TakeStep(parsed, i);
    assert parsed[..i + 1][..i] == parsed[..i];
    if SameNameSameBlock(parsed[..i + 1]) {
      forall a, b | 0 <= a < i && 0 <= b < i && parsed[..i][a].name == parsed[..i][b].name
        ensures parsed[..i][a] == parsed[..i][b] {
        assert parsed[..i + 1][a] == parsed[a] && parsed[..i + 1][b] == parsed[b];
      }
    }
  }

  lemma ExtendFresh(seen: seq<Block>, result: seq<Block>, entry: Block)
    requires (forall b :: b in result <==> b in seen) && forall b :: b in result ==> b.name != entry.name
    requires DistinctNames(result) <==> SameNameSameBlock(seen)
    ensures DistinctNames(result + [entry]) <==> SameNameSameBlock(seen + [entry])
  {
    assert forall i :: 0 <= i < |seen| ==> seen[i] in seen;
    assert forall i :: 0 <= i < |result| ==> result[i] in result;
    if SameNameSameBlock(seen + [entry]) {
      forall i, j | 0 <= i < |seen| && 0 <= j < |seen| && seen[i].name == seen[j].name ensures seen[i] == seen[j] {
        assert (seen + [entry])[i] == seen[i] && (seen + [entry])[j] == seen[j];
      }
    }
    if DistinctNames(result + [entry]) {
      forall i, j | 0 <= i < j < |result| ensures result[i].name != result[j].name {
        assert (result + [entry])[i] == result[i] && (result + [entry])[j] == result[j];
      }
    }
  }

  lemma ExtendSame(seen: seq<Block>, result: seq<Block>, entry: Block)
    requires (forall b :: b in result <==> b in seen) && entry in result
    requires DistinctNames(result) <==> SameNameSameBlock(seen)
    ensures DistinctNames(result) <==> SameNameSameBlock(seen + [entry])
  {
    assert entry in seen;
    var k :| 0 <= k < |seen| && seen[k] == entry;
    if SameNameSameBlock(seen + [entry]) {
      forall i, j | 0 <= i < |seen| && 0 <= j < |seen| && seen[i].name == seen[j].name ensures seen[i] == seen[j] {
        assert (seen + [entry])[i] == seen[i] && (seen + [entry])[j] == seen[j];
      }
    }
  }

  lemma ExtendDifferent(seen: seq<Block>, result: seq<Block>, k: nat, entry: Block)
    requires (forall b :: b in result <==> b in seen) && k < |result| && result[k].name == entry.name
    requires result[k] != entry
    ensures !DistinctNames(result + [entry]) && !SameNameSameBlock(seen + [entry])
  {
    assert (result + [entry])[k].name == (result + [entry])[|result|].name;
    assert result[k] in result;
    var m :| 0 <= m < |seen| && seen[m] == result[k];
    assert (seen + [entry])[m] == result[k] && (seen + [entry])[|seen|] == entry;
  }

  // ---- validation and staging ----

  function ViewHash(view: map<Label, Hash>, d: Label): Hash {
    if d in view then view[d] else NoHash
  }

  /** Dependency hashes when x is hashed: members hashed before it, else the decoder's view. */
  function DecoderDeps(view: map<Label, Hash>, hashes: map<Label, Hash>, done: seq<Label>, x: Label,
                       refs: seq<Label>): map<Label, Hash>
    requires forall y :: y in done ==> y in hashes
  {
    map d | d in refs :: if d == x then NoHash else if d in done then hashes[d] else ViewHash(view, d)
  }

  ghost predicate StagedInOrder(view: map<Label, Hash>, batch: Batch, order: seq<Label>, hashes: map<Label, Hash>)
    requires KindsParse(batch)
  {
    && hashes.Keys == Elements(order) && (forall x :: x in order ==> x in batch)
    && forall i :: 0 <= i < |order| ==>
                     hashes[order[i]] == StatementHash(order[i], KindIn(batch, order[i]), batch[order[i]].statement,
                                                       DecoderDeps(view, hashes, order[..i], order[i],
                                                                   DraftRefs(batch[order[i]])))
  }

  function Names(blocks: seq<Block>): (names: seq<Label>)
    ensures |names| == |blocks| && forall i :: 0 <= i < |blocks| ==> names[i] == blocks[i].name
  {
    seq(|blocks|, i requires 0 <= i < |blocks| => blocks[i].name)
  }

  function BatchOfBlocks(blocks: seq<Block>): Batch
    requires DistinctNames(blocks)
  {
    map i | 0 <= i < |blocks| :: blocks[i].name := blocks[i].draft
  }

  lemma BatchGraphWithin(batch: Batch)
    ensures Within(BatchGraph(batch), batch.Keys) && NoSelfReference(BatchGraph(batch))
  {
  }

  lemma StagedNext(view: map<Label, Hash>, batch: Batch, done: seq<Label>, hashes: map<Label, Hash>, x: Label)
    requires KindsParse(batch) && StagedInOrder(view, batch, done, hashes) && x in batch && x !in done
    ensures StagedInOrder(view, batch, done + [x],
                          hashes[x := StatementHash(x, KindIn(batch, x), batch[x].statement,
                                                    DecoderDeps(view, hashes, done, x, DraftRefs(batch[x])))])
  {
    var longer := done + [x];
    var hashes' := hashes[x := StatementHash(x, KindIn(batch, x), batch[x].statement,
                                             DecoderDeps(view, hashes, done, x, DraftRefs(batch[x])))];
    forall i | 0 <= i < |longer|
      ensures hashes'[longer[i]] == StatementHash(longer[i], KindIn(batch, longer[i]), batch[longer[i]].statement,
                                                  DecoderDeps(view, hashes', longer[..i], longer[i],
                                                              DraftRefs(batch[longer[i]])))
    {
      assert longer[..i] == done[..i];
      if i == |done| {
        TakeAll(done);
      }
      DepsUntouched(view, hashes, hashes', longer[..i], longer[i], DraftRefs(batch[longer[i]]));
    }
  }

  lemma DepsUntouched(view: map<Label, Hash>, hashes: map<Label, Hash>, hashes': map<Label, Hash>, done: seq<Label>,
                      x: Label, refs: seq<Label>)
    requires forall y :: y in done ==> y in hashes && y in hashes' && hashes'[y] == hashes[y]
    ensures DecoderDeps(view, hashes', done, x, refs) == DecoderDeps(view, hashes, done, x, refs)
  {
  }

  method StageInOrder(view: map<Label, Hash>, batch: Batch, order: seq<Label>) returns (hashes: map<Label, Hash>)
    requires KindsParse(batch) && Distinct(order) && forall x :: x in order <==> x in batch
    ensures StagedInOrder(view, batch, order, hashes)
  {
    hashes := map[];
    var i := 0;
    while i < |order|
      invariant 0 <= i <= |order|
      invariant StagedInOrder(view, batch, order[..i], hashes)
    {
      var x := order[i];
      TakeStep(order, i);
      assert x in order && x !in order[..i];
      var deps := DecoderDeps(view, hashes, order[..i], x, DraftRefs(batch[x]));
      StagedNext(view, batch, order[..i], hashes, x);
      hashes := hashes[x := StatementHash(x, KindIn(batch, x), batch[x].statement, deps)];
      i := i + 1;
    }
    TakeAll(order);
  }

  /** The first n blocks have different labels and kinds that exist. */
  ghost predicate WellFormed(parsed: seq<Block>, n: nat)
    requires n <= |parsed|
  {
    DistinctNames(parsed[..n]) && forall i :: 0 <= i < n ==> ParseKind(parsed[i].draft.kind).Some?
  }

  /** The block at i is the first to go wrong, and it repeats a label. */
  ghost predicate RepeatsAt(parsed: seq<Block>, i: nat) {
    i < |parsed| && WellFormed(parsed, i) && exists k :: 0 <= k < i && parsed[k].name == parsed[i].name
  }

  /** The block at i is the first to go wrong, and it has a new label but no known kind. */
  ghost predicate MalformedAt(parsed: seq<Block>, i: nat) {
    && i < |parsed| && WellFormed(parsed, i) && ParseKind(parsed[i].draft.kind).None?
    && forall k :: 0 <= k < i ==> parsed[k].name != parsed[i].name
  }

  /** The structural checks: repeated labels and kinds that do not exist, block by block. */
  method CheckBlocks(parsed: seq<Block>) returns (error: Option<DecodeReason>)
    ensures error == None ==> WellFormed(parsed, |parsed|)
    ensures error.Some? ==> || (error.value.DuplicateLabel? && exists i :: RepeatsAt(parsed, i))
                            || (error.value.MalformedNode? && exists i :: MalformedAt(parsed, i))
  {
    var seen: set<Label> := {};
    var i := 0;
    while i < |parsed|
      invariant 0 <= i <= |parsed|
      invariant forall x :: x in seen <==> exists k :: 0 <= k < i && parsed[k].name == x
      invariant WellFormed(parsed, i)
    {
      if parsed[i].name in seen {
        assert RepeatsAt(parsed, i);
        return Some(DuplicateLabel);
      }
      if ParseKind(parsed[i].draft.kind).None? {
        assert MalformedAt(parsed, i);
        return Some(MalformedNode);
      }
      seen := seen + {parsed[i].name};
      TakeStep(parsed, i);
      i := i + 1;
    }
    return None;
  }

  /** The order of the cycle-tolerant sort: a Kahn part, then the rest in insertion order. */
  ghost predicate DecoderOrder(g: Graph<Label>, names: seq<Label>, order: seq<Label>) {
    exists kahn :: KahnFirst(g, names, order, kahn)
  }

  ghost predicate KahnFirst(g: Graph<Label>, names: seq<Label>, order: seq<Label>, kahn: seq<Label>) {
    && order == kahn + NotIn(names, kahn) && Topological(g, kahn) && LeastFirst(g, Elements(names), kahn)
    && forall x :: x in kahn <==> x in names && !OnOrAboveCycle(g, x)
  }

  /** What the decoder stages for blocks that pass the structural checks. */
  ghost predicate StagingOf(parsed: seq<Block>, view: map<Label, Hash>, batch: Batch, order: seq<Label>,
                            hashes: map<Label, Hash>) {
    && WellFormed(parsed, |parsed|) && batch == BatchOfBlocks(parsed) && KindsParse(batch)
    && Distinct(order) && (forall x :: x in order <==> x in batch)
    && DecoderOrder(BatchGraph(batch), Names(parsed), order)
    && StagedInOrder(view, batch, order, hashes)
  }

  /** How a block is hashed: over its own label, kind and statement and one hash for each label it
      cites. A self-reference counts as empty; a member hashed before counts with its new hash;
      everything else with what the decoder sees of it. */
  ghost predicate StagedBlock(b: Block, view: map<Label, Hash>, batch: Batch, order: seq<Label>,
                              hashes: map<Label, Hash>) {
    && b.name in batch && batch[b.name] == b.draft && b.name in order && b.name in hashes
    && var h := hashes[b.name];
    && h.StatementHash? && h.name == b.name && KindName(h.kind) == b.draft.kind && h.statement == b.draft.statement
    && (forall d :: d in h.deps <==> d in RefsOf(b.draft.statement, b.draft.proof))
    && forall d :: d in h.deps ==> DepSeen(view, order, hashes, b.name, d, h.deps[d])
  }

  ghost predicate DepSeen(view: map<Label, Hash>, order: seq<Label>, hashes: map<Label, Hash>, x: Label, d: Label,
                          h: Hash) {
    && (d == x ==> h == NoHash)
    && (d != x && Ahead(order, d, x) ==> d in hashes && h == hashes[d])
    && (d != x && !Ahead(order, d, x) && d in view ==> h == view[d])
    && (d != x && !Ahead(order, d, x) && d !in view ==> h == NoHash)
  }

  /** The repair's own block for the target, hashed like the others, is the rejected text again. */
  ghost predicate NothingNew(parsed: seq<Block>, view: map<Label, Hash>, target: Label, rejected: Hash, b: Block,
                             hashes: map<Label, Hash>) {
    && b in parsed && b.name == target && target in hashes
    && (exists batch, order :: StagedBlock(b, view, batch, order, hashes))
    && VerificationHash(hashes[target], b.draft.proof) == rejected
  }

  ghost predicate Ahead(order: seq<Label>, d: Label, x: Label) {
    exists i, j :: 0 <= i < j < |order| && order[i] == d && order[j] == x
  }

  lemma BlockIsStaged(parsed: seq<Block>, view: map<Label, Hash>, batch: Batch, order: seq<Label>,
                      hashes: map<Label, Hash>, b: Block)
    requires StagingOf(parsed, view, batch, order, hashes) && b in parsed
    ensures StagedBlock(b, view, batch, order, hashes)
  {
    var j := PlaceOf(parsed, view, batch, order, hashes, b);
    KindNames(b.draft.kind);
    forall d | d in DraftRefs(b.draft) ensures DepSeen(view, order, hashes, b.name, d, hashes[b.name].deps[d]) {
      DepIsSeen(view, order, hashes, j, DraftRefs(b.draft), d);
    }
  }

  lemma PlaceOf(parsed: seq<Block>, view: map<Label, Hash>, batch: Batch, order: seq<Label>, hashes: map<Label, Hash>,
                b: Block) returns (j: nat)
    requires StagingOf(parsed, view, batch, order, hashes) && b in parsed
    ensures b.name in batch && batch[b.name] == b.draft && j < |order| && order[j] == b.name && Distinct(order)
    ensures hashes.Keys == Elements(order) && ParseKind(b.draft.kind).Some?
    ensures hashes[b.name] == StatementHash(b.name, ParseKind(b.draft.kind).value, b.draft.statement,
                                            DecoderDeps(view, hashes, order[..j], b.name, DraftRefs(b.draft)))
  {
    var k :| 0 <= k < |parsed| && parsed[k] == b;
    TakeAll(parsed);
    BlockInBatch(parsed, k);
    assert b.name in order;
    j :| 0 <= j < |order| && order[j] == b.name;
  }

  lemma DepIsSeen(view: map<Label, Hash>, order: seq<Label>, hashes: map<Label, Hash>, j: nat, refs: seq<Label>,
                  d: Label)
    requires Distinct(order) && j < |order| && d in refs && forall y :: y in order ==> y in hashes
    ensures DepSeen(view, order, hashes, order[j], d, DecoderDeps(view, hashes, order[..j], order[j], refs)[d])
  {
    AheadOf(order, d, j);
  }

  lemma BlockInBatch(parsed: seq<Block>, k: nat)
    requires DistinctNames(parsed) && k < |parsed|
    ensures parsed[k].name in BatchOfBlocks(parsed) && BatchOfBlocks(parsed)[parsed[k].name] == parsed[k].draft
  {
  }

  lemma AheadOf(order: seq<Label>, d: Label, j: nat)
    requires Distinct(order) && j < |order|
    ensures Ahead(order, d, order[j]) <==> d in order[..j]
  {
    if d in order[..j] {
      var i :| 0 <= i < j && order[..j][i] == d;
      assert order[i] == d;
    }
    if Ahead(order, d, order[j]) {
      var i, m :| 0 <= i < m < |order| && order[i] == d && order[m] == order[j];
      assert m == j;
      assert order[..j][i] == d;
    }
  }

  ghost predicate Unchanged(batch: Batch, hashes: map<Label, Hash>, target: Label, rejected: Hash) {
    target in batch && target in hashes && VerificationHash(hashes[target], batch[target].proof) == rejected
  }

  lemma BlocksAreStaged(parsed: seq<Block>, view: map<Label, Hash>, batch: Batch, order: seq<Label>,
                        hashes: map<Label, Hash>)
    requires StagingOf(parsed, view, batch, order, hashes)
    ensures batch.Keys == Elements(Names(parsed))
    ensures forall b :: b in parsed ==> StagedBlock(b, view, batch, order, hashes)
  {
    TakeAll(parsed);
    forall b | b in parsed ensures StagedBlock(b, view, batch, order, hashes) {
      BlockIsStaged(parsed, view, batch, order, hashes, b);
    }
  }

  lemma RejectedAgain(parsed: seq<Block>, view: map<Label, Hash>, batch: Batch, order: seq<Label>,
                      hashes: map<Label, Hash>, target: Label, rejected: Hash)
    requires StagingOf(parsed, view, batch, order, hashes) && target in Names(parsed)
    requires Unchanged(batch, hashes, target, rejected)
    ensures exists b :: NothingNew(parsed, view, target, rejected, b, hashes)
  {
    var k :| 0 <= k < |parsed| && Names(parsed)[k] == target;
    BlockIsStaged(parsed, view, batch, order, hashes, parsed[k]);
    TargetGone(view, batch, order, hashes, target, rejected, parsed[k]);
    assert NothingNew(parsed, view, target, rejected, parsed[k], hashes);
  }

  lemma TargetGone(view: map<Label, Hash>, batch: Batch, order: seq<Label>, hashes: map<Label, Hash>, target: Label,
                   rejected: Hash, b: Block)
    requires StagedBlock(b, view, batch, order, hashes) && b.name == target
    ensures Unchanged(batch, hashes, target, rejected) <==> VerificationHash(hashes[target], b.draft.proof) == rejected
  {
  }

  /** _decode_validate_and_stage. A staged batch holds one draft per label, the target among
      them, hashed in the cycle-tolerant order; in repair mode the target's hash has moved.
      Each error is reported for its own cause only. */
  method DecodeAndStage(parsed: seq<Block>, target: Label, repair: bool, rejected: Hash, view: map<Label, Hash>)
    returns (r: Decoded)
    ensures r.Staged? ==>
              && StagingOf(parsed, view, r.batch, r.order, r.hashes) && target in r.batch
              && (Acyclic(BatchGraph(r.batch)) ==> Topological(BatchGraph(r.batch), r.order))
              && (repair ==> !Unchanged(r.batch, r.hashes, target, rejected))
    ensures r.Staged? ==> r.batch.Keys == Elements(Names(parsed))
    ensures r.Staged? ==> forall b :: b in parsed ==> StagedBlock(b, view, r.batch, r.order, r.hashes)
    ensures r.Staged? && repair ==>
              forall b :: b in parsed && b.name == target ==>
                            target in r.hashes && VerificationHash(r.hashes[target], b.draft.proof) != rejected
    ensures r == DecodeError(DuplicateLabel) ==> exists i :: RepeatsAt(parsed, i)
    ensures r == DecodeError(MalformedNode) ==> exists i :: MalformedAt(parsed, i)
    ensures r == DecodeError(TargetMismatch) ==> WellFormed(parsed, |parsed|) && target !in Names(parsed)
    ensures r == DecodeError(RepairNoChange) ==>
              repair && exists batch, order, hashes :: StagingOf(parsed, view, batch, order, hashes)
                                                       && Unchanged(batch, hashes, target, rejected)
    ensures r == DecodeError(RepairNoChange) ==>
              exists b, hashes :: NothingNew(parsed, view, target, rejected, b, hashes)
  {
    var error := CheckBlocks(parsed);
    if error.Some? {
      return DecodeError(error.value);
    }
    TakeAll(parsed);
    var names := Names(parsed);
    if target !in names {
      return DecodeError(TargetMismatch);
    }
    var batch := BatchOfBlocks(parsed);
    var g := BatchGraph(batch);
    BatchGraphWithin(batch);
    assert Elements(names) == batch.Keys;
    var order;
    ghost var kahn;
    order, kahn := SafeTopologicalOrder(g, names);
    assert KahnFirst(g, names, order, kahn);
    if Acyclic(g) {
      WholeOrderIsKahn(g, names, order, kahn);
    }
    var hashes := StageInOrder(view, batch, order);
    assert StagingOf(parsed, view, batch, order, hashes);
    if repair && VerificationHash(hashes[target], batch[target].proof) == rejected {
      assert Unchanged(batch, hashes, target, rejected);
      RejectedAgain(parsed, view, batch, order, hashes, target, rejected);
      return DecodeError(RepairNoChange);
    }
    BlocksAreStaged(parsed, view, batch, order, hashes);
    return Staged(batch, order, hashes);
  }

  lemma WholeOrderIsKahn(g: Graph<Label>, names: seq<Label>, order: seq<Label>, kahn: seq<Label>)
    requires Acyclic(g) && order == kahn + NotIn(names, kahn) && Distinct(names)
    requires forall x :: x in kahn <==> x in names && !OnOrAboveCycle(g, x)
    ensures order == kahn
  {
    AcyclicMeans(g);
    NotInMembers(names, kahn);
    SomeMember(NotIn(names, kahn));
  }

  // ---- agreement with the projector ----

  /** For everything the batch cites outside itself the decoder sees the hash of the store, and no
      hash, or an empty one, where the store has none. */
  ghost predicate ViewAgrees(view: map<Label, Hash>, nodes: Nodes, batch: Batch) {
    forall x, d :: x in batch && d in DraftRefs(batch[x]) && d !in batch ==>
                     if d in nodes && nodes[d].statementHash != NoHash
                     then d in view && view[d] == nodes[d].statementHash
                     else d !in view || view[d] == NoHash
  }

  lemma AgreesOn(view: map<Label, Hash>, nodes: Nodes, batch: Batch, order: seq<Label>, hashes: map<Label, Hash>,
                 i: nat, d: Label)
    requires KindsParse(batch) && StagedInOrder(view, batch, order, hashes) && ViewAgrees(view, nodes, batch)
    requires Topological(BatchGraph(batch), order) && (forall x :: x in order <==> x in batch) && i < |order|
    requires order[i] in batch && d in DraftRefs(batch[order[i]]) && d != order[i]
    ensures (if d in order[..i] then hashes[d] else ViewHash(view, d))
         == if d in hashes then hashes[d] else HashOf(nodes, d)
  {
    if d in batch {
      assert (order[i], d) in BatchGraph(batch);
      assert d in order;
    } else {
      ViewReads(view, nodes, batch, order[i], d);
    }
  }

  lemma ViewReads(view: map<Label, Hash>, nodes: Nodes, batch: Batch, x: Label, d: Label)
    requires ViewAgrees(view, nodes, batch) && x in batch && d in DraftRefs(batch[x]) && d !in batch
    ensures ViewHash(view, d) == HashOf(nodes, d)
  {
  }

  lemma AgreesAt(view: map<Label, Hash>, nodes: Nodes, batch: Batch, order: seq<Label>, hashes: map<Label, Hash>,
                 i: nat)
    requires KindsParse(batch) && StagedInOrder(view, batch, order, hashes) && ViewAgrees(view, nodes, batch)
    requires Topological(BatchGraph(batch), order) && (forall x :: x in order <==> x in batch) && i < |order|
    requires Distinct(order)
    ensures StagedAt(nodes, batch, hashes, order[i])
  {
    assert order[i] in order;
    DepsAgree(view, nodes, batch, order, hashes, i);
  }

  lemma DepsAgree(view: map<Label, Hash>, nodes: Nodes, batch: Batch, order: seq<Label>, hashes: map<Label, Hash>,
                  i: nat)
    requires KindsParse(batch) && StagedInOrder(view, batch, order, hashes) && ViewAgrees(view, nodes, batch)
    requires Topological(BatchGraph(batch), order) && (forall x :: x in order <==> x in batch) && i < |order|
    requires order[i] in batch && forall y :: y in order[..i] ==> y in hashes
    ensures var x, refs := order[i], DraftRefs(batch[order[i]]);
            DecoderDeps(view, hashes, order[..i], x, refs) == StagedDeps(nodes, hashes, x, refs)
  {
    var x, refs := order[i], DraftRefs(batch[order[i]]);
    var seen, now := DecoderDeps(view, hashes, order[..i], x, refs), StagedDeps(nodes, hashes, x, refs);
    assert seen.Keys == now.Keys == Elements(refs);
    forall d | d in refs ensures seen[d] == now[d] {
      if d != x {
        AgreesOn(view, nodes, batch, order, hashes, i, d);
      }
    }
    assert seen == now;
  }

  /** Decoder and projector sort an acyclic batch differently and still give every node the same
      hash, exactly when they read the same hashes for what the batch cites outside itself. */
  lemma DecoderAgrees(view: map<Label, Hash>, nodes: Nodes, batch: Batch, order: seq<Label>, hashes: map<Label, Hash>)
    requires KindsParse(batch) && Acyclic(BatchGraph(batch))
    requires Distinct(order) && Topological(BatchGraph(batch), order) && forall x :: x in order <==> x in batch
    requires StagedInOrder(view, batch, order, hashes)
    ensures hashes == Staging(nodes, batch) <==> ViewAgrees(view, nodes, batch)
  {
    if ViewAgrees(view, nodes, batch) {
      AgreeingView(view, nodes, batch, order, hashes);
    } else {
      var x, d :| x in batch && d in DraftRefs(batch[x]) && d !in batch
                  && !(if d in nodes && nodes[d].statementHash != NoHash
                       then d in view && view[d] == nodes[d].statementHash
                       else d !in view || view[d] == NoHash);
      DisagreeingView(view, nodes, batch, order, hashes, x, d);
    }
  }

  lemma AgreeingView(view: map<Label, Hash>, nodes: Nodes, batch: Batch, order: seq<Label>, hashes: map<Label, Hash>)
    requires KindsParse(batch) && Acyclic(BatchGraph(batch)) && ViewAgrees(view, nodes, batch)
    requires Distinct(order) && Topological(BatchGraph(batch), order) && forall x :: x in order <==> x in batch
    requires StagedInOrder(view, batch, order, hashes)
    ensures hashes == Staging(nodes, batch)
  {
    assert hashes.Keys == batch.Keys by {
      assert forall x :: x in hashes <==> x in batch;
    }
    forall x | x in batch ensures StagedAt(nodes, batch, hashes, x) {
      var i :| 0 <= i < |order| && order[i] == x;
      AgreesAt(view, nodes, batch, order, hashes, i);
    }
    StagingUnique(nodes, batch, hashes, Staging(nodes, batch));
  }

  /** Hashes commit to every cited hash, so one differing reading outside the batch shows. */
  lemma DisagreeingView(view: map<Label, Hash>, nodes: Nodes, batch: Batch, order: seq<Label>,
                        hashes: map<Label, Hash>, x: Label, d: Label)
    requires KindsParse(batch) && (forall y :: y in order <==> y in batch) && StagedInOrder(view, batch, order, hashes)
    requires x in batch && d in DraftRefs(batch[x]) && d !in batch && ViewHash(view, d) != HashOf(nodes, d)
    ensures !IsStaging(nodes, batch, hashes)
  {
    var i :| 0 <= i < |order| && order[i] == x;
    var refs := DraftRefs(batch[x]);
    var seen, now := DecoderDeps(view, hashes, order[..i], x, refs), StagedDeps(nodes, hashes, x, refs);
    assert d !in order[..i] && d !in hashes;
    assert seen[d] != now[d];
    assert IsStaging(nodes, batch, hashes) ==> StagedAt(nodes, batch, hashes, x);
  }

  /** The event payload the wrapper publishes for a staged batch. */
  function Publish(batch: Batch, order: seq<Label>): seq<BatchEntry>
    requires forall x :: x in order ==> x in batch
  {
    seq(|order|, i requires 0 <= i < |order| =>
      assert order[i] in order;
      BatchEntry(Some(order[i]), Some(batch[order[i]])))
  }

  lemma PublishedBatch(batch: Batch, order: seq<Label>)
    requires Distinct(order) && (forall x :: x in order <==> x in batch) && EntriesFit(Publish(batch, order))
    ensures BatchOf(Publish(batch, order)) == batch
  {
    var published := BatchOf(Publish(batch, order));
    forall x ensures x in published <==> x in batch {
      PublishedEntry(batch, order, x);
    }
    forall x | x in batch ensures published[x] == batch[x] {
      PublishedEntry(batch, order, x);
    }
    assert published.Keys == batch.Keys;
  }

  lemma PublishedEntry(batch: Batch, order: seq<Label>, x: Label)
    requires Distinct(order) && (forall y :: y in order <==> y in batch) && EntriesFit(Publish(batch, order))
    ensures x in BatchOf(Publish(batch, order)) <==> x in batch
    ensures x in batch ==> BatchOf(Publish(batch, order))[x] == batch[x]
  {
    var entries := Publish(batch, order);
    if x in batch {
      var i :| 0 <= i < |order| && order[i] == x;
      assert EntryFits(entries[i]) && entries[i].name.value == x;
    }
    if x in BatchOf(entries) {
      var i :| 0 <= i < |entries| && EntryFits(entries[i]) && entries[i].name.value == x;
      assert order[i] in order;
    }
  }

  lemma AppliedTarget(db: Db, target: Label, entries: seq<BatchEntry>, batch: Batch)
    requires Valid(db) && ApplyBatch(db, target, entries).Accept?
    requires BatchFits(target, entries) && BatchOf(entries) == batch && BatchReady(db, target, batch)
    ensures var db' := ApplyBatch(db, target, entries).db;
            target in db'.nodes
            && db'.nodes[target].verificationHash
               == VerificationHash(Staging(db.nodes, batch)[target], batch[target].proof)
  {
    AcceptedBatch(db, target, entries);
    MidTarget(db, target, batch);
    StartKeepsHash(BatchMid(db, target, batch), target);
  }

  lemma MidTarget(db: Db, target: Label, batch: Batch)
    requires BatchReady(db, target, batch)
    ensures var mid := BatchMid(db, target, batch);
            target in mid.nodes
            && mid.nodes[target].verificationHash
               == VerificationHash(Staging(db.nodes, batch)[target], batch[target].proof)
  {
  }

  /** An applied repair batch moves its target away from the rejected verification hash. */
  lemma RepairMovesTarget(db: Db, view: map<Label, Hash>, target: Label, batch: Batch, order: seq<Label>,
                          hashes: map<Label, Hash>, rejected: Hash)
    requires Valid(db) && KindsParse(batch) && target in batch && ViewAgrees(view, db.nodes, batch)
    requires Distinct(order) && (forall x :: x in order <==> x in batch)
    requires Acyclic(BatchGraph(batch)) ==> Topological(BatchGraph(batch), order)
    requires StagedInOrder(view, batch, order, hashes)
    requires VerificationHash(hashes[target], batch[target].proof) != rejected
    requires ApplyBatch(db, target, Publish(batch, order)).Accept?
    ensures var db' := ApplyBatch(db, target, Publish(batch, order)).db;
            target in db'.nodes && db'.nodes[target].verificationHash != rejected
  {
    PublishedBatch(batch, order);
    AcceptedBatch(db, target, Publish(batch, order));
    DecoderAgrees(view, db.nodes, batch, order, hashes);
    AppliedTarget(db, target, Publish(batch, order), batch);
  }
}
