/**
 * The owner recorded for a token against the owner on the chain.  A handler is run after its block
 * is final, so ownerOf answers with the owner at the end of the block even in the middle of it.
 */
module SubgraphOwners {
  import opened Options
  import opened Text
  import opened SubgraphStore

  /** Does the event move the token on the chain?  Batch moves count, though the index ignores them. */
  predicate Moves(e: Event, c: Address, t: nat) {
    match e
    case TransferSingle(a, id, _) => a == c && id == t
    case TransferBatch(a, ids, _) => a == c && t in ids
    case _ => false
  }

  /** The owner on the chain after the events, starting from `start`. */
  function OwnerAfter(start: OwnerOf, events: seq<Event>, c: Address, t: nat): Address {
    if events == [] then start(c, t)
    else if Moves(events[|events| - 1], c, t) then events[|events| - 1].to
    else OwnerAfter(start, events[..|events| - 1], c, t)
  }

  function AtEndOf(start: OwnerOf, block: seq<Event>): OwnerOf {
    (c: Address, t: nat) => OwnerAfter(start, block, c, t)
  }

  /** The events of one block, each handled while ownerOf answers for the end of that block. */
  function Handle(tokens: Tokens, events: seq<Event>, ownerOf: OwnerOf): Tokens {
    if events == [] then tokens
    else StepTokens(Handle(tokens, events[..|events| - 1], ownerOf), events[|events| - 1], ownerOf)
  }

  /** The owner on record, if the token is indexed, is the given one. */
  ghost predicate Agree(tokens: Tokens, owner: OwnerOf, c: Address, t: nat) {
    GetID(t, c) in tokens ==> tokens[GetID(t, c)].owner == owner(c, t)
  }

  lemma {:induction false} HandleKeepsIndexed(tokens: Tokens, events: seq<Event>, ownerOf: OwnerOf)
    requires Indexed(tokens)
    ensures Indexed(Handle(tokens, events, ownerOf))
  {
    if events == [] {
    } else {
      HandleKeepsIndexed(tokens, events[..|events| - 1], ownerOf);
      StepKeepsIndexed(Handle(tokens, events[..|events| - 1], ownerOf), events[|events| - 1], ownerOf);
    }
  }

  lemma EnsureOwner(tokens: Tokens, claimID: nat, tokenID: nat, a: Address, ownerOf: OwnerOf, c: Address, t: nat)
    ensures var id, r := GetID(t, c), Ensure(tokens, claimID, tokenID, a, ownerOf);
            id in r && id !in tokens ==> r[id].owner == ownerOf(c, t)
  {
    if GetID(t, c) == GetID(tokenID, a) { GetIDInjective(t, c, tokenID, a); }
  }

  /** An entity that a row creates gets the owner that the contract answers. */
  lemma RowOwner(tokens: Tokens, r: Row, ownerOf: OwnerOf, c: Address, t: nat)
    requires Indexed(tokens)
    ensures var id, after := GetID(t, c), ApplyRow(tokens, r, ownerOf);
            id in after && id !in tokens ==> after[id].owner == ownerOf(c, t)
  {
    var id, loaded, after := GetID(t, c), EnsureBoth(tokens, r, ownerOf), ApplyRow(tokens, r, ownerOf);
    RowRewritesUnits(tokens, r, ownerOf);
    if id in after && id !in tokens {
      EnsureOwner(tokens, r.claimID, r.fromID, r.contract, ownerOf, c, t);
      EnsureOwner(Ensure(tokens, r.claimID, r.fromID, r.contract, ownerOf),
                  r.claimID, r.toID, r.contract, ownerOf, c, t);
      assert after[id].(units := 0) == loaded[id].(units := 0);
    }
  }

  lemma {:induction false} RowsOwner(tokens: Tokens, rows: seq<Row>, ownerOf: OwnerOf, c: Address, t: nat)
    requires Indexed(tokens)
    ensures var id, after := GetID(t, c), ApplyRows(tokens, rows, ownerOf);
            id in after && id !in tokens ==> after[id].owner == ownerOf(c, t)
  {
    if rows == [] {
    } else {
      var front := ApplyRows(tokens, rows[..|rows| - 1], ownerOf);
      RowsOwner(tokens, rows[..|rows| - 1], ownerOf, c, t);
      RowsKeepIndexed(tokens, rows[..|rows| - 1], ownerOf);
      RowOwner(front, rows[|rows| - 1], ownerOf, c, t);
      RowKeepsIndexed(front, rows[|rows| - 1], ownerOf);
    }
  }

  lemma DanglingOwner(tokens: Tokens, e: Event, ownerOf: OwnerOf, c: Address, t: nat)
    requires Traps(e)
    ensures var id, after := GetID(t, c), Dangling(tokens, e, ownerOf);
            id in after && id !in tokens ==> after[id].owner == ownerOf(c, t)
  {
    var n := CompleteRows(e);
    if n < |e.fromTokenIDs| {
      EnsureOwner(tokens, e.claimIDs[n], e.fromTokenIDs[n], e.address, ownerOf, c, t);
      if n < |e.toTokenIDs| {
        EnsureOwner(Ensure(tokens, e.claimIDs[n], e.fromTokenIDs[n], e.address, ownerOf),
                    e.claimIDs[n], e.toTokenIDs[n], e.address, ownerOf, c, t);
      }
    }
  }

  predicate RecordsMove(e: Event, c: Address, t: nat) { e.TransferSingle? && Moves(e, c, t) }

  /** One event: a recorded move sets the owner, a new entity asks the contract, all else leaves it. */
  lemma StepOwner(tokens: Tokens, e: Event, ownerOf: OwnerOf, c: Address, t: nat)
    requires Indexed(tokens)
    ensures var id, after := GetID(t, c), StepTokens(tokens, e, ownerOf);
            && (id in tokens ==> id in after)
            && (id in after ==>
                  after[id].owner == (if id !in tokens then ownerOf(c, t)
                                      else if RecordsMove(e, c, t) then e.to
                                      else tokens[id].owner))
  {
    var id := GetID(t, c);
    if e.TransferSingle? {
      if GetID(e.id, e.address) == id { GetIDInjective(e.id, e.address, t, c); }
    } else {
      RowsOwner(tokens, RowsOf(e), ownerOf, c, t);
      RowsKeepIndexed(tokens, RowsOf(e), ownerOf);
      if Traps(e) {
        DanglingOwner(ApplyRows(tokens, RowsOf(e), ownerOf), e, ownerOf, c, t);
        DanglingKeepsIndexed(ApplyRows(tokens, RowsOf(e), ownerOf), e, ownerOf);
      }
    }
  }

  // ------------------------------------------ what is on record, read off the log

  /** The ends that a trapping batch has looked up for the row it could not finish. */
  predicate Unfinished(e: Event, c: Address, t: nat) {
    && Traps(e) && e.address == c
    && var n := CompleteRows(e);
       n < |e.fromTokenIDs| && (e.fromTokenIDs[n] == t || (n < |e.toTokenIDs| && e.toTokenIDs[n] == t))
  }

  /** Only rows of values index a token. */
  predicate Indexes(e: Event, c: Address, t: nat) {
    (exists r :: r in RowsOf(e) && Touches(r, c, t)) || Unfinished(e, c, t)
  }

  /** The owner on record for a token, if it is indexed. */
  function OwnerIn(tokens: Tokens, c: Address, t: nat): Option<Address> {
    if GetID(t, c) in tokens then Some(tokens[GetID(t, c)].owner) else None
  }

  /** One event's effect on the owner on record. */
  function NextOnRecord(before: Option<Address>, e: Event, ownerOf: OwnerOf, c: Address, t: nat): Option<Address> {
    if before.None? then (if Indexes(e, c, t) then Some(ownerOf(c, t)) else None)
    else if RecordsMove(e, c, t) then Some(e.to)
    else before
  }

  /**
   * What the events put on record, from the log alone: nothing until a row of values touches the
   * token, then the contract's answer, and from then on the recipient of each single transfer.
   */
  function OnRecord(known: Option<Address>, events: seq<Event>, atEnd: OwnerOf, c: Address, t: nat): Option<Address> {
    if events == [] then known
    else NextOnRecord(OnRecord(known, events[..|events| - 1], atEnd, c, t), events[|events| - 1], atEnd, c, t)
  }

  lemma RowIndexes(tokens: Tokens, r: Row, ownerOf: OwnerOf, c: Address, t: nat)
    ensures GetID(t, c) in ApplyRow(tokens, r, ownerOf) <==> GetID(t, c) in tokens || Touches(r, c, t)
  {
    RowRewritesUnits(tokens, r, ownerOf);
    if GetID(t, c) == FromKey(r) { GetIDInjective(t, c, r.fromID, r.contract); }
    if GetID(t, c) == ToKey(r) { GetIDInjective(t, c, r.toID, r.contract); }
  }

  lemma {:induction false} RowsIndex(tokens: Tokens, rows: seq<Row>, ownerOf: OwnerOf, c: Address, t: nat)
    ensures GetID(t, c) in ApplyRows(tokens, rows, ownerOf)
            <==> GetID(t, c) in tokens || exists r :: r in rows && Touches(r, c, t)
  {
    if rows == [] {
    } else {
      var front, last := rows[..|rows| - 1], rows[|rows| - 1];
      assert rows == front + [last];
      RowsIndex(tokens, front, ownerOf, c, t);
      RowIndexes(ApplyRows(tokens, front, ownerOf), last, ownerOf, c, t);
    }
  }

  lemma DanglingIndexes(tokens: Tokens, e: Event, ownerOf: OwnerOf, c: Address, t: nat)
    requires Traps(e)
    ensures GetID(t, c) in Dangling(tokens, e, ownerOf) <==> GetID(t, c) in tokens || Unfinished(e, c, t)
  {
    var n := CompleteRows(e);
    if n < |e.fromTokenIDs| {
      if GetID(t, c) == GetID(e.fromTokenIDs[n], e.address) { GetIDInjective(t, c, e.fromTokenIDs[n], e.address); }
      if n < |e.toTokenIDs| && GetID(t, c) == GetID(e.toTokenIDs[n], e.address) {
        GetIDInjective(t, c, e.toTokenIDs[n], e.address);
      }
    }
  }

  lemma StepIndexes(tokens: Tokens, e: Event, ownerOf: OwnerOf, c: Address, t: nat)
    ensures GetID(t, c) in StepTokens(tokens, e, ownerOf) <==> GetID(t, c) in tokens || Indexes(e, c, t)
  {
    if !e.TransferSingle? {
      RowsIndex(tokens, RowsOf(e), ownerOf, c, t);
      if Traps(e) { DanglingIndexes(ApplyRows(tokens, RowsOf(e), ownerOf), e, ownerOf, c, t); }
    }
  }

  lemma StepOnRecord(tokens: Tokens, e: Event, ownerOf: OwnerOf, c: Address, t: nat)
    requires Indexed(tokens)
    ensures OwnerIn(StepTokens(tokens, e, ownerOf), c, t) == NextOnRecord(OwnerIn(tokens, c, t), e, ownerOf, c, t)
  {
    hide StepTokens, Indexes, RecordsMove;
    StepOwner(tokens, e, ownerOf, c, t);
    StepIndexes(tokens, e, ownerOf, c, t);
  }

  /** The index holds exactly what the log says: who is indexed, and who is on record as owner. */
  lemma {:induction false} HandleOnRecord(tokens: Tokens, events: seq<Event>, atEnd: OwnerOf, c: Address, t: nat)
    requires Indexed(tokens)
    ensures OwnerIn(Handle(tokens, events, atEnd), c, t) == OnRecord(OwnerIn(tokens, c, t), events, atEnd, c, t)
  {
    if events == [] {
    } else {
      var front, last := events[..|events| - 1], events[|events| - 1];
      HandleOnRecord(tokens, front, atEnd, c, t);
      HandleKeepsIndexed(tokens, front, atEnd);
      StepOnRecord(Handle(tokens, front, atEnd), last, atEnd, c, t);
    }
  }

  /** Events that record no move of the token leave its owner, or create it with the contract's answer. */
  lemma {:induction false} QuietOwner(tokens: Tokens, events: seq<Event>, ownerOf: OwnerOf, c: Address, t: nat)
    requires Indexed(tokens)
    requires forall e :: e in events ==> !RecordsMove(e, c, t)
    ensures var id, after := GetID(t, c), Handle(tokens, events, ownerOf);
            && (id in tokens ==> id in after)
            && (id in after ==> after[id].owner == (if id in tokens then tokens[id].owner else ownerOf(c, t)))
  {
    if events == [] {
    } else {
      var front, last := events[..|events| - 1], events[|events| - 1];
      QuietOwner(tokens, front, ownerOf, c, t);
      HandleKeepsIndexed(tokens, front, ownerOf);
      StepOwner(Handle(tokens, front, ownerOf), last, ownerOf, c, t);
      assert last in events;
    }
  }

  lemma {:induction false} HandleConcat(tokens: Tokens, a: seq<Event>, b: seq<Event>, ownerOf: OwnerOf)
    ensures Handle(tokens, a + b, ownerOf) == Handle(Handle(tokens, a, ownerOf), b, ownerOf)
  {
    if b == [] {
      assert a + b == a;
    } else {
      assert (a + b)[..|a + b| - 1] == a + b[..|b| - 1];
      HandleConcat(tokens, a, b[..|b| - 1], ownerOf);
    }
  }

  function Calls(events: seq<Event>, ownerOf: OwnerOf): (log: seq<Call>)
    ensures |log| == |events| && forall i :: 0 <= i < |events| ==> log[i] == Call(events[i], ownerOf)
  {
    seq(|events|, i requires 0 <= i < |events| => Call(events[i], ownerOf))
  }

  /** Handling a block is running its events while the contract's answers stay the same. */
  lemma {:induction false} HandleIsRun(s: Store, events: seq<Event>, ownerOf: OwnerOf)
    ensures Handle(s.tokens, events, ownerOf) == Run(s, Calls(events, ownerOf)).tokens
  {
    if events == [] {
    } else {
      HandleIsRun(s, events[..|events| - 1], ownerOf);
      assert Calls(events, ownerOf)[..|events| - 1] == Calls(events[..|events| - 1], ownerOf);
    }
  }

  /** `i` is where the block last moves the token. */
  ghost predicate LastMove(block: seq<Event>, i: nat, c: Address, t: nat) {
    i < |block| && Moves(block[i], c, t) && forall e :: e in block[i + 1..] ==> !Moves(e, c, t)
  }

  lemma {:induction false} OwnerUnmoved(start: OwnerOf, events: seq<Event>, quiet: seq<Event>, c: Address, t: nat)
    requires forall e :: e in quiet ==> !Moves(e, c, t)
    ensures OwnerAfter(start, events + quiet, c, t) == OwnerAfter(start, events, c, t)
  {
    if quiet == [] {
      assert events + quiet == events;
    } else {
      var all := events + quiet;
      assert all[..|all| - 1] == events + quiet[..|quiet| - 1];
      assert all[|all| - 1] in quiet;
      OwnerUnmoved(start, events, quiet[..|quiet| - 1], c, t);
    }
  }

  lemma {:induction false} LastMoveExists(block: seq<Event>, c: Address, t: nat)
    ensures (forall e :: e in block ==> !Moves(e, c, t)) || exists i: nat :: LastMove(block, i, c, t)
  {
    if block == [] {
    } else {
      var front, n := block[..|block| - 1], |block| - 1;
      if Moves(block[n], c, t) {
        assert LastMove(block, n, c, t);
      } else {
        LastMoveExists(front, c, t);
        if i: nat :| LastMove(front, i, c, t) {
          assert block[i + 1..] == front[i + 1..] + [block[n]];
          assert LastMove(block, i, c, t);
        } else {
          assert block == front + [block[n]];
        }
      }
    }
  }

  /**
   * The index misses a move only this way: the block's last move of the token is a batch transfer,
   * and what the log has put on record before it is another owner than the recipient.
   */
  ghost predicate Missed(known: Option<Address>, block: seq<Event>, atEnd: OwnerOf, c: Address, t: nat) {
    exists i: nat :: LastMove(block, i, c, t) && MissedAt(known, block, atEnd, c, t, i)
  }

  predicate MissedAt(known: Option<Address>, block: seq<Event>, atEnd: OwnerOf, c: Address, t: nat, i: nat)
    requires i < |block|
  {
    var before := OnRecord(known, block[..i], atEnd, c, t);
    block[i].TransferBatch? && before.Some? && before.value != block[i].to
  }

  lemma OwnerAfterLastMove(tokens: Tokens, start: OwnerOf, block: seq<Event>, c: Address, t: nat, i: nat)
    requires Indexed(tokens) && Agree(tokens, start, c, t) && LastMove(block, i, c, t)
    ensures var atEnd := AtEndOf(start, block);
            Agree(Handle(tokens, block, atEnd), atEnd, c, t)
            <==> !MissedAt(OwnerIn(tokens, c, t), block, atEnd, c, t, i)
  {
    hide StepTokens, OnRecord, GetID;
    var atEnd, rest, id := AtEndOf(start, block), block[i + 1..], GetID(t, c);
    var known := Handle(tokens, block[..i], atEnd);
    var now := StepTokens(known, block[i], atEnd);
    HandleOnRecord(tokens, block[..i], atEnd, c, t);
    HandleKeepsIndexed(tokens, block[..i], atEnd);
    StepKeepsIndexed(known, block[i], atEnd);
    StepOwner(known, block[i], atEnd, c, t);
    QuietOwner(now, rest, atEnd, c, t);
    assert block == block[..i] + ([block[i]] + rest) && block == block[..i] + [block[i]] + rest;
    OwnerUnmoved(start, block[..i] + [block[i]], rest, c, t);
    HandleConcat(tokens, block[..i], [block[i]] + rest, atEnd);
    HandleConcat(known, [block[i]], rest, atEnd);
    assert [block[i]][..0] == [];
    assert Handle(known, [block[i]], atEnd) == now;
  }

  /**
   * If a token's recorded owner is right before a block (or it is not indexed yet), it is right after
   * the block exactly when the block does not end its moves with a batch transfer the index misses.
   * Transfers seen before the token was indexed, and creation in mid-block, do no harm.
   */
  lemma BlockKeepsOwner(tokens: Tokens, start: OwnerOf, block: seq<Event>, c: Address, t: nat)
    requires Indexed(tokens) && Agree(tokens, start, c, t)
    ensures var atEnd := AtEndOf(start, block);
            Agree(Handle(tokens, block, atEnd), atEnd, c, t) <==> !Missed(OwnerIn(tokens, c, t), block, atEnd, c, t)
  {
    LastMoveExists(block, c, t);
    var atEnd := AtEndOf(start, block);
    if forall e :: e in block ==> !Moves(e, c, t) {
      assert [] + block == block;
      OwnerUnmoved(start, [], block, c, t);
      QuietOwner(tokens, block, atEnd, c, t);
    } else {
      forall i: nat | LastMove(block, i, c, t)
        ensures Agree(Handle(tokens, block, atEnd), atEnd, c, t)
                <==> !MissedAt(OwnerIn(tokens, c, t), block, atEnd, c, t, i)
      {
        OwnerAfterLastMove(tokens, start, block, c, t, i);
      }
    }
  }

  // ------------------------------------------------------------- whole chain

  function OwnerAtBlock(genesis: OwnerOf, blocks: seq<seq<Event>>): OwnerOf {
    if blocks == [] then genesis
    else AtEndOf(OwnerAtBlock(genesis, blocks[..|blocks| - 1]), blocks[|blocks| - 1])
  }

  function TokensAtBlock(genesis: OwnerOf, blocks: seq<seq<Event>>): Tokens {
    if blocks == [] then map[]
    else Handle(TokensAtBlock(genesis, blocks[..|blocks| - 1]), blocks[|blocks| - 1], OwnerAtBlock(genesis, blocks))
  }

  ghost predicate AgreeThroughout(genesis: OwnerOf, blocks: seq<seq<Event>>, c: Address, t: nat) {
    && (blocks != [] ==> AgreeThroughout(genesis, blocks[..|blocks| - 1], c, t))
    && Agree(TokensAtBlock(genesis, blocks), OwnerAtBlock(genesis, blocks), c, t)
  }

  predicate Seen(blocks: seq<seq<Event>>, c: Address, t: nat) {
    exists b, e :: b in blocks && e in b && Indexes(e, c, t)
  }

  /** The chain's owner, once the token has been seen. */
  function KnownAt(genesis: OwnerOf, blocks: seq<seq<Event>>, c: Address, t: nat): Option<Address> {
    if Seen(blocks, c, t) then Some(OwnerAtBlock(genesis, blocks)(c, t)) else None
  }

  /** No block ends its moves of the token with a batch transfer to somebody else than is on record. */
  ghost predicate NeverMissed(genesis: OwnerOf, blocks: seq<seq<Event>>, c: Address, t: nat) {
    blocks != [] ==>
      && NeverMissed(genesis, blocks[..|blocks| - 1], c, t)
      && !Missed(KnownAt(genesis, blocks[..|blocks| - 1], c, t), blocks[|blocks| - 1],
                 OwnerAtBlock(genesis, blocks), c, t)
  }

  lemma {:induction false} TokensAtBlockIndexed(genesis: OwnerOf, blocks: seq<seq<Event>>)
    ensures Indexed(TokensAtBlock(genesis, blocks))
  {
    if blocks == [] {
    } else {
      TokensAtBlockIndexed(genesis, blocks[..|blocks| - 1]);
      HandleKeepsIndexed(TokensAtBlock(genesis, blocks[..|blocks| - 1]), blocks[|blocks| - 1],
                         OwnerAtBlock(genesis, blocks));
    }
  }

  lemma {:induction false} HandleSeen(tokens: Tokens, events: seq<Event>, ownerOf: OwnerOf, c: Address, t: nat)
    ensures GetID(t, c) in Handle(tokens, events, ownerOf)
            <==> GetID(t, c) in tokens || exists e :: e in events && Indexes(e, c, t)
  {
    if events == [] {
    } else {
      var front, last := events[..|events| - 1], events[|events| - 1];
      assert events == front + [last];
      HandleSeen(tokens, front, ownerOf, c, t);
      StepIndexes(Handle(tokens, front, ownerOf), last, ownerOf, c, t);
    }
  }

  lemma {:induction false} SeenIffIndexed(genesis: OwnerOf, blocks: seq<seq<Event>>, c: Address, t: nat)
    ensures GetID(t, c) in TokensAtBlock(genesis, blocks) <==> Seen(blocks, c, t)
  {
    if blocks == [] {
    } else {
      var front, last := blocks[..|blocks| - 1], blocks[|blocks| - 1];
      assert blocks == front + [last];
      SeenIffIndexed(genesis, front, c, t);
      HandleSeen(TokensAtBlock(genesis, front), last, OwnerAtBlock(genesis, blocks), c, t);
    }
  }

  /**
   * The recorded owner is the chain's at every block boundary exactly when no batch move is missed,
   * which the genesis owners and the events decide.
   */
  lemma {:induction false} OwnersIffNeverMissed(genesis: OwnerOf, blocks: seq<seq<Event>>, c: Address, t: nat)
    ensures AgreeThroughout(genesis, blocks, c, t) <==> NeverMissed(genesis, blocks, c, t)
  {
    if blocks == [] {
    } else {
      var front := blocks[..|blocks| - 1];
      OwnersIffNeverMissed(genesis, front, c, t);
      TokensAtBlockIndexed(genesis, front);
      if AgreeThroughout(genesis, front, c, t) {
        SeenIffIndexed(genesis, front, c, t);
        assert OwnerIn(TokensAtBlock(genesis, front), c, t) == KnownAt(genesis, front, c, t);
        BlockKeepsOwner(TokensAtBlock(genesis, front), OwnerAtBlock(genesis, front), blocks[|blocks| - 1], c, t);
      }
    }
  }

  /** In particular where every move is a single transfer, as the index assumes. */
  lemma {:induction false} SingleTransfersTracked(genesis: OwnerOf, blocks: seq<seq<Event>>, c: Address, t: nat)
    requires forall b, e :: b in blocks && e in b && e.TransferBatch? ==> !Moves(e, c, t)
    ensures AgreeThroughout(genesis, blocks, c, t)
  {
    SinglesNeverMissed(genesis, blocks, c, t);
    OwnersIffNeverMissed(genesis, blocks, c, t);
  }

  lemma {:induction false} SinglesNeverMissed(genesis: OwnerOf, blocks: seq<seq<Event>>, c: Address, t: nat)
    requires forall b, e :: b in blocks && e in b && e.TransferBatch? ==> !Moves(e, c, t)
    ensures NeverMissed(genesis, blocks, c, t)
  {
    if blocks == [] {
    } else {
      SinglesNeverMissed(genesis, blocks[..|blocks| - 1], c, t);
      var block := blocks[|blocks| - 1];
      assert block in blocks;
      forall i: nat | LastMove(block, i, c, t) ensures !block[i].TransferBatch? { assert block[i] in block; }
    }
  }

  /** A batch transfer of an indexed token: the chain says Bob, the index still says Alice. */
  lemma BatchTransferGoesStale(c: Address, alice: Address, bob: Address)
    requires alice != bob
    ensures var genesis: OwnerOf := (a: Address, t: nat) => alice;
            var blocks := [[ValueTransfer(c, 1, 0, 2, 5)], [TransferBatch(c, [2], bob)]];
            && GetID(2, c) in TokensAtBlock(genesis, blocks)
            && TokensAtBlock(genesis, blocks)[GetID(2, c)].owner == alice
            && OwnerAtBlock(genesis, blocks)(c, 2) == bob
  {
    var genesis: OwnerOf := (a: Address, t: nat) => alice;
    var mint, move := ValueTransfer(c, 1, 0, 2, 5), TransferBatch(c, [2], bob);
    var one := OwnerAtBlock(genesis, [[mint]]);
    var tokens := TokensAtBlock(genesis, [[mint]]);
    NextBlock(genesis, [], [mint]);
    NextBlock(genesis, [[mint]], [move]);
    assert [[mint]] + [[move]] == [[mint], [move]] && [] + [[mint]] == [[mint]];
    OneEvent(map[], mint, one);
    OneEvent(tokens, move, OwnerAtBlock(genesis, [[mint], [move]]));
    assert GetID(2, c) in tokens by {
      var r := Row(c, 1, 0, 2, 5);
      assert RowsOf(mint) == [r] && [r][..0] == [];
      assert ApplyRows(map[], [r], one) == ApplyRow(map[], r, one);
    }
    StepOwner(map[], mint, one, c, 2);
    assert [mint][..0] == [] && OwnerAfter(genesis, [mint], c, 2) == alice;
  }

  lemma NextBlock(genesis: OwnerOf, blocks: seq<seq<Event>>, block: seq<Event>)
    ensures TokensAtBlock(genesis, blocks + [block])
            == Handle(TokensAtBlock(genesis, blocks), block, OwnerAtBlock(genesis, blocks + [block]))
    ensures OwnerAtBlock(genesis, blocks + [block]) == AtEndOf(OwnerAtBlock(genesis, blocks), block)
  {
    assert (blocks + [block])[..|blocks|] == blocks;
  }

  lemma OneEvent(tokens: Tokens, e: Event, ownerOf: OwnerOf)
    ensures Handle(tokens, [e], ownerOf) == StepTokens(tokens, e, ownerOf)
  {
    assert [e][..0] == [];
  }
}
