/**
 Laws of block assembly: patches arrive one list of votes per attestor, the block stores one list of
 votes per transaction, and every later check strips the block back to what each party signed.
 */
module BlockAssembly {
  import opened Prelude
  import opened BlockPb
  import opened BlockUtil

  /** The block after the validator has appended all patches in order. */
  function Assemble(b: Block, patches: seq<Patch>): Block {
    if patches == [] then b
    else AppendPatch(Assemble(b, patches[..|patches| - 1]), patches[|patches| - 1])
  }

  /** A block that only its validator has signed: one signature, no attestor votes. */
  predicate OnlyValidatorSigned(b: Block) {
    |b.signers| == 1 && forall i :: 0 <= i < |b.txs| ==> b.txs[i].attestorVotes == []
  }

  /** A patch that has a vote for each of `n` transactions. */
  predicate Complete(p: Patch, n: nat) {
    forall i :: 0 <= i < n ==> VoteAt(p.votes, i) != Undefined
  }

  predicate AllComplete(patches: seq<Patch>, n: nat) {
    forall j :: 0 <= j < |patches| ==> Complete(patches[j], n)
  }

  /** What all patches say about transaction `i`. */
  function Row(patches: seq<Patch>, i: nat): (r: seq<VoteData>)
    ensures |r| == |patches|
  {
    seq(|patches|, j requires 0 <= j < |patches| => VoteAt(patches[j].votes, i))
  }

  /** Assembly is a transposition: transaction `i` of the block gets entry `i` of every patch, in patch order. */
  lemma {:induction false} AssembleShape(b: Block, patches: seq<Patch>)
    ensures var B := Assemble(b, patches);
            && B.ts == b.ts && B.attestToken == b.attestToken
            && |B.txs| == |b.txs|
            && |B.signers| == |b.signers| + |patches|
            && (forall k :: 0 <= k < |b.signers| ==> B.signers[k] == b.signers[k])
            && (forall j :: 0 <= j < |patches| ==> B.signers[|b.signers| + j] == patches[j].signer)
            && (forall i :: 0 <= i < |b.txs| ==>
                  B.txs[i] == b.txs[i].(attestorVotes := b.txs[i].attestorVotes + Row(patches, i)))
  {
    if patches == [] {
      forall i | 0 <= i < |b.txs| ensures b.txs[i] == b.txs[i].(attestorVotes := b.txs[i].attestorVotes + Row(patches, i)) {
        assert b.txs[i].attestorVotes + Row(patches, i) == b.txs[i].attestorVotes;
      }
    } else {
      var front, last := patches[..|patches| - 1], patches[|patches| - 1];
      AssembleShape(b, front);
      var B := Assemble(b, patches);
      forall i | 0 <= i < |b.txs| ensures B.txs[i] == b.txs[i].(attestorVotes := b.txs[i].attestorVotes + Row(patches, i)) {
        assert Row(patches, i) == Row(front, i) + [VoteAt(last.votes, i)];
        assert B.txs[i].attestorVotes == b.txs[i].attestorVotes + Row(front, i) + [VoteAt(last.votes, i)];
      }
    }
  }

  /** For a block that only the validator has signed, the votes of transaction `i` are its column of the patches. */
  lemma AssembledVotes(b: Block, patches: seq<Patch>, i: nat)
    requires OnlyValidatorSigned(b) && i < |b.txs|
    ensures var B := Assemble(b, patches);
            && |B.txs| == |b.txs| && |B.txs[i].attestorVotes| == |patches|
            && forall j :: 0 <= j < |patches| ==> B.txs[i].attestorVotes[j] == VoteAt(patches[j].votes, i)
  {}

  lemma AssembledSerializable(b: Block, patches: seq<Patch>)
    requires OnlyValidatorSigned(b)
    ensures Serializable(Assemble(b, patches)) <==> AllComplete(patches, |b.txs|)
  {
    var B := Assemble(b, patches);
    AssembleShape(b, patches);
    forall i | 0 <= i < |b.txs|
      ensures |B.txs[i].attestorVotes| == |patches|
      ensures forall j :: 0 <= j < |patches| ==> B.txs[i].attestorVotes[j] == VoteAt(patches[j].votes, i)
    {
      AssembledVotes(b, patches, i);
    }
    if Serializable(B) {
      forall j, i | 0 <= j < |patches| && 0 <= i < |b.txs| ensures VoteAt(patches[j].votes, i) != Undefined {
        assert B.txs[i].attestorVotes[j] != Undefined;
      }
    }
  }

  /** Stripping the assembled block for attestor `k` gives the block that attestor was asked to sign. */
  lemma StrippedForAttestor(b: Block, patches: seq<Patch>, k: nat)
    requires OnlyValidatorSigned(b) && 1 <= k <= |patches|
    ensures |Assemble(b, patches).signers| == |patches| + 1
    ensures AttestorPayload(Assemble(b, patches), k) == WithColumn(b, patches[k - 1].votes)
  {
    var B := Assemble(b, patches);
    AssembleShape(b, patches);
    var p, w := AttestorPayload(B, k), WithColumn(b, patches[k - 1].votes);
    forall i | 0 <= i < |b.txs| ensures p.txs[i] == w.txs[i] {
      AssembledVotes(b, patches, i);
    }
    assert p.txs == w.txs;
    assert b.signers == [b.signers[0]];
  }

  lemma StrippedForValidator(b: Block, patches: seq<Patch>)
    requires OnlyValidatorSigned(b)
    ensures ValidatorPayload(Assemble(b, patches)) == ValidatorPayload(b)
  {}

  lemma ColumnSerializable(b: Block, p: Patch)
    ensures Serializable(WithColumn(b, p.votes)) <==> Complete(p, |b.txs|)
  {
    SerializableColumn(b, p.votes);
  }

  /**
   Assembly is undone by recovery: from the assembled block every signer index gives back exactly
   the address that the validator recovered from that patch alone. If any patch misses a vote, the
   assembled block cannot be serialized and every recovery throws.
   */
  lemma RecoveryUndoesAssembly(b: Block, patches: seq<Patch>, k: nat)
    requires OnlyValidatorSigned(b) && 1 <= k <= |patches|
    ensures RecoverSigner(Assemble(b, patches), k)
         == if AllComplete(patches, |b.txs|) then RecoverPatch(b, patches[k - 1]) else Thrown("cannot serialize")
  {
    AssembleShape(b, patches);
    AssembledSerializable(b, patches);
    StrippedForAttestor(b, patches, k);
    ColumnSerializable(b, patches[k - 1]);
  }

  /** Index 0 gives the validator, whatever patches were appended, unless one of them misses a vote. */
  lemma RecoveryFindsValidator(b: Block, patches: seq<Patch>)
    requires OnlyValidatorSigned(b)
    ensures RecoverSigner(Assemble(b, patches), 0)
         == if AllComplete(patches, |b.txs|) then RecoverSigner(b, 0) else Thrown("cannot serialize")
  {
    AssembleShape(b, patches);
    AssembledSerializable(b, patches);
    StrippedForValidator(b, patches);
  }

  /** What the validator signs is recovered as its own signature. */
  lemma ValidatorSignatureRecovered(wallet: NodeId, b: Block)
    requires b.signers == []
    ensures OnlyValidatorSigned(SignedByValidator(wallet, b))
    ensures RecoverSigner(SignedByValidator(wallet, b), 0) == Ok(Some(wallet))
  {}

  /** What an attestor signs is recovered as its own patch. */
  lemma AttestorSignatureRecovered(wallet: NodeId, b: Block, votes: seq<VoteData>)
    requires OnlyValidatorSigned(b)
    ensures RecoverPatch(b, Patch(votes, Signature(wallet, WithColumn(b, votes))))
         == if Complete(Patch(votes, Signature(wallet, b)), |b.txs|) then Ok(Some(wallet)) else Thrown("cannot serialize")
  {
    ColumnSerializable(b, Patch(votes, Signature(wallet, b)));
  }

  // ---------------------------------------------------------------- taking a block apart

  /** The block as its validator sent it out for attestation. */
  function InitialBlock(b: Block): Block
    requires b.signers != []
  {
    ValidatorPayload(b).(signers := [b.signers[0]])
  }

  /** The votes of attestor `k`, one per transaction. */
  function ColumnOf(b: Block, k: nat): seq<VoteData>
    requires 1 <= k
  {
    seq(|b.txs|, i requires 0 <= i < |b.txs| => VoteAt(b.txs[i].attestorVotes, k - 1))
  }

  /** A patch cut to one entry per transaction: the part of it that reaches the block. */
  function Trim(p: Patch, n: nat): Patch {
    p.(votes := seq(n, i requires 0 <= i < n => VoteAt(p.votes, i)))
  }

  /** Taking the assembled block apart gives back the initial block and every patch that went in. */
  lemma InitialBlockBack(b: Block, patches: seq<Patch>)
    requires OnlyValidatorSigned(b)
    ensures |Assemble(b, patches).signers| == |patches| + 1
    ensures InitialBlock(Assemble(b, patches)) == b
  {}

  lemma PatchBack(b: Block, patches: seq<Patch>, k: nat)
    requires OnlyValidatorSigned(b) && 1 <= k <= |patches|
    ensures |Assemble(b, patches).signers| == |patches| + 1
    ensures Patch(ColumnOf(Assemble(b, patches), k), Assemble(b, patches).signers[k]) == Trim(patches[k - 1], |b.txs|)
  {
    AssembleShape(b, patches);
    var B := Assemble(b, patches);
    forall i | 0 <= i < |b.txs| ensures ColumnOf(B, k)[i] == VoteAt(patches[k - 1].votes, i) {
      AssembledVotes(b, patches, i);
    }
    assert ColumnOf(B, k) == Trim(patches[k - 1], |b.txs|).votes;
  }

  /** The lists agree in everything that reaches a block with `n` transactions. */
  ghost predicate SamePatches(patches: seq<Patch>, others: seq<Patch>, n: nat) {
    |patches| == |others| && forall j :: 0 <= j < |patches| ==> Trim(patches[j], n) == Trim(others[j], n)
  }

  lemma TrimmedAppends(b: Block, p: Patch, q: Patch)
    requires Trim(p, |b.txs|) == Trim(q, |b.txs|)
    ensures AppendPatch(b, p) == AppendPatch(b, q)
  {
    forall i | 0 <= i < |b.txs| ensures VoteAt(p.votes, i) == VoteAt(q.votes, i) {
      assert Trim(p, |b.txs|).votes[i] == Trim(q, |b.txs|).votes[i];
    }
    assert AppendPatch(b, p).txs == AppendPatch(b, q).txs;
  }

  lemma {:induction false} SamePatchesSameBlock(b: Block, patches: seq<Patch>, others: seq<Patch>)
    requires SamePatches(patches, others, |b.txs|)
    ensures Assemble(b, patches) == Assemble(b, others)
  {
    if patches != [] {
      hide Trim, AppendPatch;
      var k := |patches| - 1;
      SamePatchesSameBlock(b, patches[..k], others[..k]);
      AssembleShape(b, patches[..k]);
      TrimmedAppends(Assemble(b, patches[..k]), patches[k], others[k]);
    }
  }

  lemma SameBlockSamePatches(b: Block, patches: seq<Patch>, c: Block, others: seq<Patch>)
    requires OnlyValidatorSigned(b) && OnlyValidatorSigned(c) && Assemble(b, patches) == Assemble(c, others)
    ensures b == c && SamePatches(patches, others, |b.txs|)
  {
    hide Trim, Assemble, InitialBlock, ColumnOf, OnlyValidatorSigned;
    InitialBlockBack(b, patches);
    InitialBlockBack(c, others);
    forall j | 0 <= j < |patches| ensures Trim(patches[j], |b.txs|) == Trim(others[j], |b.txs|) {
      PatchBack(b, patches, j + 1);
      PatchBack(c, others, j + 1);
    }
  }

  /**
   Assembly is injective up to votes that no transaction takes: two assembled blocks are equal exactly
   when the initial blocks are, and the patches are, one by one and in the same order.
   */
  lemma AssembleInjective(b: Block, patches: seq<Patch>, c: Block, others: seq<Patch>)
    requires OnlyValidatorSigned(b) && OnlyValidatorSigned(c)
    ensures Assemble(b, patches) == Assemble(c, others) <==> b == c && SamePatches(patches, others, |b.txs|)
  {
    hide Trim, Assemble, OnlyValidatorSigned;
    if Assemble(b, patches) == Assemble(c, others) {
      SameBlockSamePatches(b, patches, c, others);
    }
    if b == c && SamePatches(patches, others, |b.txs|) {
      SamePatchesSameBlock(b, patches, others);
    }
  }

  /** Different signers behind an assembled block: different addresses behind the patches, none of them the validator's. */
  lemma SignersDistinctIff(b: Block, patches: seq<Patch>)
    requires OnlyValidatorSigned(b) && AllComplete(patches, |b.txs|)
    ensures SignersDistinct(Assemble(b, patches)) <==>
              && (forall j :: 0 <= j < |patches| ==> RecoverPatch(b, patches[j]) != RecoverSigner(b, 0))
              && (forall i, j :: 0 <= i < j < |patches| ==> RecoverPatch(b, patches[i]) != RecoverPatch(b, patches[j]))
  {
    hide RecoverPatch, RecoverSigner, Complete, OnlyValidatorSigned;
    var B := Assemble(b, patches);
    AssembleShape(b, patches);
    assert |b.signers| == 1 by { OneSignature(b); }
    RecoveryFindsValidator(b, patches);
    forall k | 1 <= k <= |patches| ensures RecoverSigner(B, k) == RecoverPatch(b, patches[k - 1]) {
      RecoveryUndoesAssembly(b, patches, k);
    }
    if SignersDistinct(B) {
      forall j | 0 <= j < |patches| ensures RecoverPatch(b, patches[j]) != RecoverSigner(b, 0) {
        assert RecoverSigner(B, 0) != RecoverSigner(B, j + 1);
      }
      forall i, j | 0 <= i < j < |patches| ensures RecoverPatch(b, patches[i]) != RecoverPatch(b, patches[j]) {
        assert RecoverSigner(B, i + 1) != RecoverSigner(B, j + 1);
      }
    }
  }

  lemma OneSignature(b: Block)
    requires OnlyValidatorSigned(b)
    ensures |b.signers| == 1
  {}

  ghost predicate SignersDistinct(b: Block) {
    forall i, k :: 0 <= i < k < |b.signers| ==> RecoverSigner(b, i) != RecoverSigner(b, k)
  }

  // ---------------------------------------------------------------- the checks compared

  lemma {:induction false} SignersAccepted(b: Block, validators: set<NodeId>, k: nat)
    requires k <= |b.signers|
    ensures SignersVerdict(b, validators, k) == Success <==> forall j :: k <= j < |b.signers| ==> SignedByOneOf(b, j, validators)
    decreases |b.signers| - k
  {
    if k < |b.signers| {
      SignersAccepted(b, validators, k + 1);
      assert SignerVerdict(b, validators, k) == Success <==> SignedByOneOf(b, k, validators);
      hide SignerVerdict, SignedByOneOf;
      assert (forall j :: k <= j < |b.signers| ==> SignedByOneOf(b, j, validators)) <==>
          SignedByOneOf(b, k, validators) && forall j :: k + 1 <= j < |b.signers| ==> SignedByOneOf(b, j, validators);
    }
  }

  /**
   The final check is the storage node's check plus the attestor's rules and valid votes, no more and
   no less; so a block that passes it is also accepted by storage nodes that see the same contract.
   */
  lemma FinalizedIsStorageCheckPlusRules(env: CheckEnv, b: Block, validators: set<NodeId>, valPerBlock: int)
    ensures FinalVerdict(env, b, validators, valPerBlock) == Success
       <==> SNodeVerdict(b, validators, valPerBlock) == Success && AttestorRules(env, b) && VotesValid(b)
  {
    SignersAccepted(b, validators, 0);
    if |b.signers| >= 1 {
      SignersAccepted(b, validators, 1);
    }
  }

  /** The shape of every finalized block. */
  lemma FinalizedShape(env: CheckEnv, b: Block, validators: set<NodeId>, valPerBlock: int)
    requires FinalVerdict(env, b, validators, valPerBlock) == Success
    ensures |b.signers| == valPerBlock >= 1
    ensures forall k :: 0 <= k < valPerBlock ==>
              RecoverSigner(b, k).Ok? && RecoverSigner(b, k).value.Some? && RecoverSigner(b, k).value.value in validators
    ensures |b.txs| < env.maxTxs && TotalSize(b.txs) <= env.maxTotalSize
    ensures env.maxAgeSeconds > 0 ==> b.ts - 1000 * env.maxAgeSeconds <= env.now <= b.ts + 1000 * env.maxAgeSeconds
    ensures forall i :: 0 <= i < |b.txs| ==>
              && b.txs[i].tx.Some? && b.txs[i].tx.value.size <= env.maxTxSize && env.checkTx(b.txs[i].tx.value)
              && b.txs[i].validatorVote == Some(ACCEPTED)
              && |b.txs[i].attestorVotes| == valPerBlock - 1
              && forall j :: 0 <= j < valPerBlock - 1 ==> b.txs[i].attestorVotes[j] in {Vote(ACCEPTED), Vote(REJECTED)}
    ensures SNodeVerdict(b, validators, valPerBlock) == Success
  {
    FinalizedIsStorageCheckPlusRules(env, b, validators, valPerBlock);
    SignersAccepted(b, validators, 0);
    forall k | 0 <= k < valPerBlock
      ensures RecoverSigner(b, k).Ok? && RecoverSigner(b, k).value.Some? && RecoverSigner(b, k).value.value in validators
    {
      assert SignedByOneOf(b, k, validators);
    }
  }
}
