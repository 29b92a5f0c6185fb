/**
 Signing, patching, stripping and checking of blocks. Each operation that patches a block object in
 place is proved against a function on block values; the laws about those functions are in
 BlockAssembly.
 */
module BlockUtil {
  import opened Prelude
  import opened ValidatorRandom
  import opened BlockPb

  // ---------------------------------------------------------------- values

  /** The vote of a patch for one transaction, as list indexing gives it. */
  function VoteAt(votes: seq<VoteData>, i: nat): VoteData {
    if i < |votes| then votes[i] else Undefined
  }

  /** What the validator signs: its own vote on everything, no attestor votes, no signatures. */
  function VotedByValidator(b: Block): Block {
    b.(txs := seq(|b.txs|, i requires 0 <= i < |b.txs| =>
         b.txs[i].(validatorVote := Some(ACCEPTED), attestorVotes := [])))
  }

  function SignedByValidator(wallet: NodeId, b: Block): Block {
    VotedByValidator(b).(signers := [Signature(wallet, VotedByValidator(b))])
  }

  /** The block with the votes of one attestor only. */
  function WithColumn(b: Block, votes: seq<VoteData>): Block {
    b.(txs := seq(|b.txs|, i requires 0 <= i < |b.txs| => b.txs[i].(attestorVotes := [VoteAt(votes, i)])))
  }

  function AppendPatch(b: Block, p: Patch): Block {
    b.(txs := seq(|b.txs|, i requires 0 <= i < |b.txs| =>
         b.txs[i].(attestorVotes := b.txs[i].attestorVotes + [VoteAt(p.votes, i)])),
       signers := b.signers + [p.signer])
  }

  /** The validator's payload: the block without any signature and attestor vote. */
  function ValidatorPayload(b: Block): Block {
    b.(txs := seq(|b.txs|, i requires 0 <= i < |b.txs| => b.txs[i].(attestorVotes := [])), signers := [])
  }

  /** The payload of attestor `k`: the validator's signature and the k-th vote on every transaction. */
  function AttestorPayload(b: Block, k: nat): Block
    requires 1 <= k && b.signers != []
  {
    b.(txs := seq(|b.txs|, i requires 0 <= i < |b.txs| =>
         b.txs[i].(attestorVotes := [VoteAt(b.txs[i].attestorVotes, k - 1)])),
       signers := [b.signers[0]])
  }

  function RecoverPatch(b: Block, p: Patch): Result<Option<NodeId>> {
    if !Serializable(b) || !Serializable(WithColumn(b, p.votes)) then Thrown("cannot serialize")
    else Recover(WithColumn(b, p.votes), p.signer)
  }

  function RecoverSigner(b: Block, k: int): Result<Option<NodeId>> {
    if !(0 <= k < |b.signers|) then Thrown("signer out of index")
    else if !Serializable(b) then Thrown("cannot serialize")
    else if k == 0 then Recover(ValidatorPayload(b), b.signers[0])
    else if !Serializable(AttestorPayload(b, k)) then Thrown("cannot serialize")
    else Recover(AttestorPayload(b, k), b.signers[k])
  }

  // ---------------------------------------------------------------- what is recovered, written out

  /** `w` is `b` with other attestor votes and signatures. */
  ghost predicate SameProposal(w: Block, b: Block) {
    && w.ts == b.ts && w.attestToken == b.attestToken && |w.txs| == |b.txs|
    && forall i :: 0 <= i < |b.txs| ==> w.txs[i].tx == b.txs[i].tx && w.txs[i].validatorVote == b.txs[i].validatorVote
  }

  lemma SerializableColumn(b: Block, votes: seq<VoteData>)
    ensures Serializable(WithColumn(b, votes)) <==> forall i :: 0 <= i < |b.txs| ==> VoteAt(votes, i) != Undefined
  {
    var w := WithColumn(b, votes);
    if Serializable(w) {
      forall i | 0 <= i < |b.txs| ensures VoteAt(votes, i) != Undefined {
        assert w.txs[i].attestorVotes[0] != Undefined;
      }
    }
  }

  /** A patch recovers to the node that signed the given block with the votes of the patch, one per transaction, none missing. */
  lemma PatchSigner(b: Block, p: Patch, id: NodeId)
    ensures RecoverPatch(b, p) == Ok(Some(id)) <==>
              && Serializable(b) && |p.votes| >= |b.txs| && (forall i :: 0 <= i < |b.txs| ==> p.votes[i] != Undefined)
              && p.signer.Signature? && p.signer.signer == id
              && SameProposal(p.signer.payload, b) && p.signer.payload.signers == b.signers
              && forall i :: 0 <= i < |b.txs| ==> p.signer.payload.txs[i].attestorVotes == [p.votes[i]]
    ensures RecoverPatch(b, p).Thrown? <==>
              || !Serializable(b) || p.signer.Malformed?
              || |p.votes| < |b.txs| || exists i :: 0 <= i < |b.txs| && p.votes[i] == Undefined
  {
    var w := WithColumn(b, p.votes);
    SerializableColumn(b, p.votes);
    if forall i :: 0 <= i < |b.txs| ==> VoteAt(p.votes, i) != Undefined {
      assert b.txs != [] ==> VoteAt(p.votes, |b.txs| - 1) != Undefined;
      forall i | 0 <= i < |b.txs| ensures p.votes[i] != Undefined {
        assert VoteAt(p.votes, i) != Undefined;
      }
    }
    if p.signer.Signature? && SameProposal(p.signer.payload, b) && |p.votes| >= |b.txs| && p.signer.payload.signers == b.signers &&
       forall i :: 0 <= i < |b.txs| ==> p.signer.payload.txs[i].attestorVotes == [p.votes[i]] {
      assert p.signer.payload.txs == w.txs;
    }
  }

  /** The first signature recovers to the node that signed the block without any attestor votes and signatures. */
  lemma FirstSigner(b: Block, id: NodeId)
    ensures RecoverSigner(b, 0) == Ok(Some(id)) <==>
              && b.signers != [] && Serializable(b) && b.signers[0].Signature? && b.signers[0].signer == id
              && SameProposal(b.signers[0].payload, b) && b.signers[0].payload.signers == []
              && forall i :: 0 <= i < |b.txs| ==> b.signers[0].payload.txs[i].attestorVotes == []
  {
    if b.signers != [] && b.signers[0].Signature? && SameProposal(b.signers[0].payload, b) && b.signers[0].payload.signers == [] &&
       forall i :: 0 <= i < |b.txs| ==> b.signers[0].payload.txs[i].attestorVotes == [] {
      assert b.signers[0].payload.txs == ValidatorPayload(b).txs;
    }
  }

  /** Signature `k` recovers to the node that signed the block with the first signature and the `k`-th votes only. */
  lemma LaterSigner(b: Block, k: nat, id: NodeId)
    requires 1 <= k && Serializable(b)
    ensures RecoverSigner(b, k) == Ok(Some(id)) <==>
              && k < |b.signers| && b.signers[k].Signature? && b.signers[k].signer == id
              && SameProposal(b.signers[k].payload, b) && b.signers[k].payload.signers == [b.signers[0]]
              && forall i :: 0 <= i < |b.txs| ==>
                   |b.txs[i].attestorVotes| >= k && b.signers[k].payload.txs[i].attestorVotes == [b.txs[i].attestorVotes[k - 1]]
  {
    if k < |b.signers| {
      var w := AttestorPayload(b, k);
      assert Serializable(w) <==> forall i :: 0 <= i < |b.txs| ==> |b.txs[i].attestorVotes| >= k by {
        forall i | 0 <= i < |b.txs| ensures w.txs[i].attestorVotes[0] == VoteAt(b.txs[i].attestorVotes, k - 1) {}
      }
      if b.signers[k].Signature? && SameProposal(b.signers[k].payload, b) && b.signers[k].payload.signers == [b.signers[0]] &&
         forall i :: 0 <= i < |b.txs| ==>
           |b.txs[i].attestorVotes| >= k && b.signers[k].payload.txs[i].attestorVotes == [b.txs[i].attestorVotes[k - 1]] {
        assert b.signers[k].payload.txs == w.txs;
      }
    }
  }

  // ---------------------------------------------------------------- the operations on block objects

  method SignBlockAsValidator(wallet: NodeId, blockNoSigs: BlockObj) returns (r: Result<()>)
    requires blockNoSigs.Valid()
    modifies blockNoSigs, blockNoSigs.txObjs
    ensures blockNoSigs.Valid() && blockNoSigs.txObjs == old(blockNoSigs.txObjs)
    ensures r.Ok? <==> old(blockNoSigs.signers) == []
    ensures r.Ok? ==> blockNoSigs.Value() == SignedByValidator(wallet, old(blockNoSigs.Value()))
    ensures r.Thrown? ==> blockNoSigs.Value() == old(blockNoSigs.Value())
  {
    if |blockNoSigs.signers| != 0 {
      return Thrown("Assertion failed");
    }
    ghost var was := blockNoSigs.Value();
    var objs := blockNoSigs.txObjs;
    for i := 0 to |objs|
      invariant blockNoSigs.txObjs == objs == old(blockNoSigs.txObjs) && blockNoSigs.signers == []
      invariant blockNoSigs.ts == was.ts && blockNoSigs.attestToken == was.attestToken
      invariant forall k :: 0 <= k < i ==>
                  objs[k].Value() == was.txs[k].(validatorVote := Some(ACCEPTED), attestorVotes := [])
      invariant forall k :: i <= k < |objs| ==> objs[k].Value() == was.txs[k]
    {
      objs[i].validatorVote := Some(ACCEPTED);
      objs[i].attestorVotes := [];
    }
    assert blockNoSigs.Value() == VotedByValidator(was);
    blockNoSigs.signers := [Signature(wallet, blockNoSigs.Value())];
    return Ok(());
  }

  method SignBlockAsAttestor(wallet: NodeId, blockSignedByV: BlockObj) returns (r: Result<Patch>)
    requires blockSignedByV.Valid()
    ensures r.Ok? <==> Serializable(blockSignedByV.Value()) && |blockSignedByV.signers| == 1
    ensures r.Ok? ==>
              && r.value.votes == seq(|blockSignedByV.txObjs|, _ => Vote(ACCEPTED))
              && r.value.signer == Signature(wallet, WithColumn(blockSignedByV.Value(), r.value.votes))
  {
    if !Serializable(blockSignedByV.Value()) {
      return Thrown("cannot serialize");
    }
    var tmpBlock := new BlockObj.Deserialize(blockSignedByV.Value());
    if |blockSignedByV.signers| != 1 {
      return Thrown("Assertion failed");
    }
    ghost var was := blockSignedByV.Value();
    var votes: seq<VoteData> := [];
    for i := 0 to |tmpBlock.txObjs|
      invariant tmpBlock.Valid() && fresh(tmpBlock) && fresh(tmpBlock.txObjs)
      invariant |tmpBlock.txObjs| == |was.txs|
      invariant tmpBlock.ts == was.ts && tmpBlock.attestToken == was.attestToken && tmpBlock.signers == was.signers
      invariant votes == seq(i, _ => Vote(ACCEPTED))
      invariant forall k :: 0 <= k < i ==>
                  tmpBlock.txObjs[k].Value() == was.txs[k].(attestorVotes := [Vote(ACCEPTED)])
      invariant forall k :: i <= k < |was.txs| ==> tmpBlock.txObjs[k].Value() == was.txs[k]
    {
      votes := votes + [Vote(ACCEPTED)];
      tmpBlock.txObjs[i].attestorVotes := [Vote(ACCEPTED)];
    }
    assert tmpBlock.Value() == WithColumn(was, votes);
    return Ok(Patch(votes, Signature(wallet, tmpBlock.Value())));
  }

  method AppendPatchAsValidator(blockSignedByVA: BlockObj, ar: Patch)
    requires blockSignedByVA.Valid()
    modifies blockSignedByVA, blockSignedByVA.txObjs
    ensures blockSignedByVA.Valid() && blockSignedByVA.txObjs == old(blockSignedByVA.txObjs)
    ensures blockSignedByVA.Value() == AppendPatch(old(blockSignedByVA.Value()), ar)
  {
    ghost var was := blockSignedByVA.Value();
    var objs := blockSignedByVA.txObjs;
    for txIndex := 0 to |objs|
      invariant blockSignedByVA.txObjs == objs == old(blockSignedByVA.txObjs)
      invariant blockSignedByVA.ts == was.ts && blockSignedByVA.attestToken == was.attestToken
      invariant blockSignedByVA.signers == was.signers
      invariant forall k :: 0 <= k < txIndex ==>
                  objs[k].Value() == was.txs[k].(attestorVotes := was.txs[k].attestorVotes + [VoteAt(ar.votes, k)])
      invariant forall k :: txIndex <= k < |objs| ==> objs[k].Value() == was.txs[k]
    {
      objs[txIndex].attestorVotes := objs[txIndex].attestorVotes + [VoteAt(ar.votes, txIndex)];
    }
    blockSignedByVA.signers := blockSignedByVA.signers + [ar.signer];
  }

  method RecoverPatchAddress(blockSignedByVA: BlockObj, ar: Patch) returns (r: Result<Option<NodeId>>)
    requires blockSignedByVA.Valid()
    ensures r == RecoverPatch(blockSignedByVA.Value(), ar)
  {
    if !Serializable(blockSignedByVA.Value()) {
      return Thrown("cannot serialize");
    }
    ghost var was := blockSignedByVA.Value();
    var tmpBlock := new BlockObj.Deserialize(blockSignedByVA.Value());
    for txIndex := 0 to |tmpBlock.txObjs|
      invariant tmpBlock.Valid() && fresh(tmpBlock) && fresh(tmpBlock.txObjs)
      invariant |tmpBlock.txObjs| == |was.txs|
      invariant tmpBlock.ts == was.ts && tmpBlock.attestToken == was.attestToken && tmpBlock.signers == was.signers
      invariant forall k :: 0 <= k < txIndex ==>
                  tmpBlock.txObjs[k].Value() == was.txs[k].(attestorVotes := [VoteAt(ar.votes, k)])
      invariant forall k :: txIndex <= k < |was.txs| ==> tmpBlock.txObjs[k].Value() == was.txs[k]
    {
      tmpBlock.txObjs[txIndex].attestorVotes := [VoteAt(ar.votes, txIndex)];
    }
    assert tmpBlock.Value() == WithColumn(was, ar.votes);
    if !Serializable(tmpBlock.Value()) {
      return Thrown("cannot serialize");
    }
    return Recover(tmpBlock.Value(), ar.signer);
  }

  method RecoverSignerAddress(blockSignedByVA: BlockObj, signerIndex: int) returns (r: Result<Option<NodeId>>)
    requires blockSignedByVA.Valid()
    ensures r == RecoverSigner(blockSignedByVA.Value(), signerIndex)
  {
    if !(signerIndex >= 0 && signerIndex < |blockSignedByVA.signers|) {
      return Thrown("signer out of index");
    }
    if !Serializable(blockSignedByVA.Value()) {
      return Thrown("cannot serialize");
    }
    var tmpBlock := new BlockObj.Deserialize(blockSignedByVA.Value());
    if signerIndex == 0 {
      StripForValidator(tmpBlock);
      return Recover(tmpBlock.Value(), blockSignedByVA.signers[0]);
    }
    StripForAttestor(tmpBlock, signerIndex);
    if !Serializable(tmpBlock.Value()) {
      return Thrown("cannot serialize");
    }
    return Recover(tmpBlock.Value(), blockSignedByVA.signers[signerIndex]);
  }

  method StripForValidator(tmpBlock: BlockObj)
    requires tmpBlock.Valid()
    modifies tmpBlock, tmpBlock.txObjs
    ensures tmpBlock.txObjs == old(tmpBlock.txObjs)
    ensures tmpBlock.Value() == ValidatorPayload(old(tmpBlock.Value()))
  {
    ghost var was := tmpBlock.Value();
    var objs := tmpBlock.txObjs;
    tmpBlock.signers := [];
    for i := 0 to |objs|
      invariant tmpBlock.txObjs == objs == old(tmpBlock.txObjs)
      invariant tmpBlock.ts == was.ts && tmpBlock.attestToken == was.attestToken && tmpBlock.signers == []
      invariant forall k :: 0 <= k < i ==> objs[k].Value() == was.txs[k].(attestorVotes := [])
      invariant forall k :: i <= k < |objs| ==> objs[k].Value() == was.txs[k]
    {
      objs[i].attestorVotes := [];
    }
  }

  method StripForAttestor(tmpBlock: BlockObj, signerIndex: nat)
    requires tmpBlock.Valid() && 1 <= signerIndex < |tmpBlock.signers|
    modifies tmpBlock, tmpBlock.txObjs
    ensures tmpBlock.txObjs == old(tmpBlock.txObjs)
    ensures tmpBlock.Value() == AttestorPayload(old(tmpBlock.Value()), signerIndex)
  {
    ghost var was := tmpBlock.Value();
    var objs := tmpBlock.txObjs;
    tmpBlock.signers := [tmpBlock.signers[0]];
    for txIndex := 0 to |objs|
      invariant tmpBlock.txObjs == objs == old(tmpBlock.txObjs)
      invariant tmpBlock.ts == was.ts && tmpBlock.attestToken == was.attestToken && tmpBlock.signers == [was.signers[0]]
      invariant forall k :: 0 <= k < txIndex ==>
                  objs[k].Value() == was.txs[k].(attestorVotes := [VoteAt(was.txs[k].attestorVotes, signerIndex - 1)])
      invariant forall k :: txIndex <= k < |objs| ==> objs[k].Value() == was.txs[k]
    {
      var onlyOneAttestation := VoteAt(objs[txIndex].attestorVotes, signerIndex - 1);
      assert objs[txIndex].Value() == was.txs[txIndex];
      objs[txIndex].attestorVotes := [onlyOneAttestation];
    }
  }

  // ---------------------------------------------------------------- the checks

  /** `Exception` is a rejected promise; it is not the same as a returned failure. */
  datatype CheckR = Success | Failure | Exception

  /** The limits and the rules for a single transaction; `checkTx` is left uninterpreted. */
  datatype CheckEnv = CheckEnv(
    maxTxSize: int, maxTotalSize: int, maxTxs: int, maxAgeSeconds: int, now: int, checkTx: Transaction -> bool)

  function Abs(x: int): nat {
    if x < 0 then -x else x
  }

  predicate AttestTokenFormat(token: Token) {
    match token
    case AttestToken(_) => true
    case ValidatorToken(_) => false
    case Text(text) => ATT_TOKEN_PREFIX <= text
  }

  predicate TokenHasMinSize(token: Token) {
    token.Text? ==> |token.text| >= 4
  }

  predicate GoodTx(env: CheckEnv, t: TxValue) {
    && t.tx.Some? && t.tx.value.size <= env.maxTxSize
    && t.validatorVote == Some(ACCEPTED)
    && env.checkTx(t.tx.value)
  }

  function TotalSize(txs: seq<TxValue>): nat {
    if txs == [] then 0
    else
      var last := txs[|txs| - 1];
      TotalSize(txs[..|txs| - 1]) + if last.tx.Some? then last.tx.value.size else 0
  }

  /** Everything an attestor demands of a block before it looks at the validator's signature. */
  ghost predicate AttestorRules(env: CheckEnv, b: Block) {
    && AttestTokenFormat(b.attestToken) && TokenHasMinSize(b.attestToken)
    && |b.txs| < env.maxTxs
    && (env.maxAgeSeconds > 0 ==> Abs(b.ts - env.now) <= 1000 * env.maxAgeSeconds)
    && (forall i :: 0 <= i < |b.txs| ==> GoodTx(env, b.txs[i]))
    && TotalSize(b.txs) <= env.maxTotalSize
    && |b.signers| >= 1
    && (forall i :: 0 <= i < |b.txs| ==> |b.txs[i].attestorVotes| == |b.signers| - 1)
  }

  predicate SignedByOneOf(b: Block, k: nat, validators: set<NodeId>) {
    var r := RecoverSigner(b, k);
    r.Ok? && r.value.Some? && r.value.value in validators
  }

  function SignerVerdict(b: Block, validators: set<NodeId>, k: nat): CheckR {
    if RecoverSigner(b, k).Thrown? then Exception
    else if SignedByOneOf(b, k, validators) then Success
    else Failure
  }

  ghost function AttestorVerdict(env: CheckEnv, b: Block, validators: set<NodeId>): CheckR {
    if !AttestorRules(env, b) then Failure
    else SignerVerdict(b, validators, 0)
  }

  predicate ValidAttestorVote(v: VoteData) {
    v == Vote(ACCEPTED) || v == Vote(REJECTED)
  }

  predicate VotesValid(b: Block) {
    forall i, j :: 0 <= i < |b.txs| && 0 <= j < |b.txs[i].attestorVotes| ==> ValidAttestorVote(b.txs[i].attestorVotes[j])
  }

  /** The first signature from `k` on that throws or is not a validator's decides. */
  function SignersVerdict(b: Block, validators: set<NodeId>, k: nat): CheckR
    decreases |b.signers| - k
  {
    if k >= |b.signers| then Success
    else if SignerVerdict(b, validators, k) != Success then SignerVerdict(b, validators, k)
    else SignersVerdict(b, validators, k + 1)
  }

  ghost function FinalVerdict(env: CheckEnv, b: Block, validators: set<NodeId>, valPerBlock: int): CheckR {
    var first := AttestorVerdict(env, b, validators);
    if first != Success then first
    else if |b.signers| != valPerBlock || !VotesValid(b) then Failure
    else SignersVerdict(b, validators, 1)
  }

  function SNodeVerdict(b: Block, validators: set<NodeId>, valPerBlock: int): CheckR {
    if |b.signers| != valPerBlock then Failure
    else if !Serializable(b) then Exception
    else SignersVerdict(b, validators, 0)
  }

  lemma {:induction false} TotalSizeGrows(txs: seq<TxValue>, i: nat)
    requires i <= |txs|
    ensures TotalSize(txs[..i]) <= TotalSize(txs)
    decreases |txs| - i
  {
    if i == |txs| {
      assert txs[..i] == txs;
    } else {
      assert txs[..i + 1][..i] == txs[..i];
      TotalSizeGrows(txs, i + 1);
    }
  }

  /** What an attestor accepts, written out; everything else it refuses, and it throws only over the validator's signature. */
  lemma AttestorAccepts(env: CheckEnv, b: Block, validators: set<NodeId>)
    ensures var rules :=
              && (b.attestToken.AttestToken? || (b.attestToken.Text? && "AT1" <= b.attestToken.text && |b.attestToken.text| >= 4))
              && |b.txs| < env.maxTxs
              && (env.maxAgeSeconds > 0 ==> b.ts - 1000 * env.maxAgeSeconds <= env.now <= b.ts + 1000 * env.maxAgeSeconds)
              && (forall i :: 0 <= i < |b.txs| ==>
                    && b.txs[i].tx.Some? && b.txs[i].tx.value.size <= env.maxTxSize && env.checkTx(b.txs[i].tx.value)
                    && b.txs[i].validatorVote == Some(1) && |b.txs[i].attestorVotes| == |b.signers| - 1)
              && TotalSize(b.txs) <= env.maxTotalSize
              && b.signers != [];
            && (AttestorVerdict(env, b, validators) == Success <==>
                  rules && exists id :: id in validators && RecoverSigner(b, 0) == Ok(Some(id)))
            && (AttestorVerdict(env, b, validators) == Exception <==> rules && RecoverSigner(b, 0).Thrown?)
  {
    hide RecoverSigner, TotalSize;
    assert SignedByOneOf(b, 0, validators) <==> exists id :: id in validators && RecoverSigner(b, 0) == Ok(Some(id));
  }

  /** The signature at `k` is that of a validator. */
  ghost predicate ValidatorAt(b: Block, k: nat, validators: set<NodeId>) {
    exists id :: id in validators && RecoverSigner(b, k) == Ok(Some(id))
  }

  /** Position `k` is the first from `start` on that is not a validator's, and it throws. */
  ghost predicate ThrowsFirst(b: Block, validators: set<NodeId>, start: nat, k: nat) {
    start <= k < |b.signers| && RecoverSigner(b, k).Thrown? && forall i :: start <= i < k ==> ValidatorAt(b, i, validators)
  }

  /** The signers from `k` on: all of validators, or the first other one decides. */
  lemma {:induction false} SignersDecide(b: Block, validators: set<NodeId>, k: nat)
    requires k <= |b.signers|
    ensures SignersVerdict(b, validators, k) == Success <==> forall j :: k <= j < |b.signers| ==> ValidatorAt(b, j, validators)
    ensures SignersVerdict(b, validators, k) == Exception <==> exists j :: ThrowsFirst(b, validators, k, j)
    decreases |b.signers| - k
  {
    if k < |b.signers| {
      SignersDecide(b, validators, k + 1);
      assert SignedByOneOf(b, k, validators) <==> ValidatorAt(b, k, validators);
      hide ValidatorAt, SignedByOneOf, RecoverSigner;
      if j: nat :| ThrowsFirst(b, validators, k, j) {
        assert j > k ==> ThrowsFirst(b, validators, k + 1, j);
      }
      var next := k + 1;
      if j: nat :| ThrowsFirst(b, validators, next, j) {
        assert ValidatorAt(b, k, validators) ==> ThrowsFirst(b, validators, k, j);
      }
      if RecoverSigner(b, k).Thrown? {
        assert ThrowsFirst(b, validators, k, k);
      }
    }
  }

  /** What the final check accepts, and when it throws. */
  lemma FinalAccepts(env: CheckEnv, b: Block, validators: set<NodeId>, valPerBlock: int)
    ensures var first := AttestorVerdict(env, b, validators);
            var shape :=
              && |b.signers| == valPerBlock
              && forall i, j :: 0 <= i < |b.txs| && 0 <= j < |b.txs[i].attestorVotes| ==>
                   b.txs[i].attestorVotes[j] == Vote(1) || b.txs[i].attestorVotes[j] == Vote(2);
            && (FinalVerdict(env, b, validators, valPerBlock) == Success <==>
                  first == Success && shape && forall k :: 1 <= k < |b.signers| ==> ValidatorAt(b, k, validators))
            && (FinalVerdict(env, b, validators, valPerBlock) == Exception <==>
                  || first == Exception
                  || (first == Success && shape && exists k :: ThrowsFirst(b, validators, 1, k)))
  {
    hide RecoverSigner, SignersVerdict, ValidatorAt, ThrowsFirst;
    if |b.signers| >= 1 {
      SignersDecide(b, validators, 1);
    }
  }

  /** What a storage node accepts, and when it throws. */
  lemma SNodeAccepts(b: Block, validators: set<NodeId>, valPerBlock: int)
    ensures SNodeVerdict(b, validators, valPerBlock) == Success <==>
              |b.signers| == valPerBlock && Serializable(b) && forall k :: 0 <= k < |b.signers| ==> ValidatorAt(b, k, validators)
    ensures SNodeVerdict(b, validators, valPerBlock) == Exception <==>
              |b.signers| == valPerBlock && (!Serializable(b) || exists k :: ThrowsFirst(b, validators, 0, k))
  {
    hide RecoverSigner, SignersVerdict, ValidatorAt, ThrowsFirst;
    SignersDecide(b, validators, 0);
  }

  method CheckBlockAsAttestor(env: CheckEnv, blockSignedByV: BlockObj, validatorsFromContract: set<NodeId>)
    returns (r: CheckR)
    requires blockSignedByV.Valid()
    ensures r == AttestorVerdict(env, blockSignedByV.Value(), validatorsFromContract)
    ensures r == Success ==> blockSignedByV.signers != []
  {
    hide RecoverSigner, Serializable;
    ghost var b := blockSignedByV.Value();
    if !AttestTokenFormat(blockSignedByV.attestToken) {
      return Failure;
    }
    if |blockSignedByV.txObjs| >= env.maxTxs {
      return Failure;
    }
    if env.maxAgeSeconds > 0 && Abs(blockSignedByV.ts - env.now) > 1000 * env.maxAgeSeconds {
      return Failure;
    }
    if !TokenHasMinSize(blockSignedByV.attestToken) {
      return Failure;
    }
    var totalTxBytes := 0;
    for i := 0 to |blockSignedByV.txObjs|
      invariant forall k :: 0 <= k < i ==> GoodTx(env, b.txs[k])
      invariant totalTxBytes == TotalSize(b.txs[..i])
    {
      var txObj := blockSignedByV.txObjs[i];
      assert txObj.Value() == b.txs[i];
      assert b.txs[..i + 1][..i] == b.txs[..i];
      if txObj.tx.None? {
        return Failure;
      }
      var tx := txObj.tx.value;
      totalTxBytes := totalTxBytes + tx.size;
      if tx.size > env.maxTxSize {
        return Failure;
      }
      if txObj.validatorVote.None? || txObj.validatorVote.value != ACCEPTED {
        return Failure;
      }
      if !env.checkTx(tx) {
        return Failure;
      }
    }
    assert b.txs[..|b.txs|] == b.txs;
    if totalTxBytes > env.maxTotalSize {
      return Failure;
    }
    if |blockSignedByV.signers| == 0 {
      return Failure;
    }
    var sigCount := |blockSignedByV.signers|;
    for i := 0 to |blockSignedByV.txObjs|
      invariant forall k :: 0 <= k < i ==> |b.txs[k].attestorVotes| == sigCount - 1
    {
      assert blockSignedByV.txObjs[i].Value() == b.txs[i];
      if |blockSignedByV.txObjs[i].attestorVotes| != sigCount - 1 {
        return Failure;
      }
    }
    var blockValidatorNodeId := RecoverSignerAddress(blockSignedByV, 0);
    if blockValidatorNodeId.Thrown? {
      return Exception;
    }
    var allowed := blockValidatorNodeId.value.Some? && blockValidatorNodeId.value.value in validatorsFromContract;
    if !allowed {
      return Failure;
    }
    return Success;
  }

  method CheckBlockFinalized(env: CheckEnv, blockSignedByVA: BlockObj, validatorsFromContract: set<NodeId>,
                             valPerBlockFromContract: int)
    returns (r: CheckR)
    requires blockSignedByVA.Valid()
    ensures r == FinalVerdict(env, blockSignedByVA.Value(), validatorsFromContract, valPerBlockFromContract)
  {
    hide AttestorRules, RecoverSigner, VotesValid;
    ghost var b := blockSignedByVA.Value();
    var check1 := CheckBlockAsAttestor(env, blockSignedByVA, validatorsFromContract);
    if check1 != Success {
      return check1;
    }
    var sigCount := |blockSignedByVA.signers|;
    if sigCount != valPerBlockFromContract {
      return Failure;
    }
    var votesValid := CheckVotes(blockSignedByVA);
    if !votesValid {
      return Failure;
    }
    for attIndex := 1 to sigCount
      invariant SignersVerdict(b, validatorsFromContract, 1) == SignersVerdict(b, validatorsFromContract, attIndex)
    {
      var attNodeId := RecoverSignerAddress(blockSignedByVA, attIndex);
      if attNodeId.Thrown? {
        return Exception;
      }
      var allowed := attNodeId.value.Some? && attNodeId.value.value in validatorsFromContract;
      if !allowed {
        return Failure;
      }
    }
    return Success;
  }

  /** Every attestor vote on every transaction is one of the two valid ones. */
  method CheckVotes(block: BlockObj) returns (valid: bool)
    requires block.Valid()
    ensures valid <==> VotesValid(block.Value())
  {
    ghost var b := block.Value();
    for txIndex := 0 to |block.txObjs|
      invariant forall i, j :: 0 <= i < txIndex && 0 <= j < |b.txs[i].attestorVotes| ==>
                  ValidAttestorVote(b.txs[i].attestorVotes[j])
    {
      var txObj := block.txObjs[txIndex];
      assert txObj.Value() == b.txs[txIndex];
      for j := 0 to |txObj.attestorVotes|
        invariant forall k :: 0 <= k < j ==> ValidAttestorVote(b.txs[txIndex].attestorVotes[k])
      {
        if !ValidAttestorVote(txObj.attestorVotes[j]) {
          return false;
        }
      }
    }
    return true;
  }

  /** Once the attestor check has passed, recovering a signer throws exactly for a malformed signature. */
  lemma OnlyMalformedThrows(env: CheckEnv, b: Block, validators: set<NodeId>, k: nat)
    requires AttestorVerdict(env, b, validators) == Success
    requires k < |b.signers|
    ensures RecoverSigner(b, k).Thrown? <==> b.signers[k].Malformed?
  {}

  method CheckBlockAsSNode(blockSignedByVA: BlockObj, validatorsFromContract: set<NodeId>,
                           valPerBlockFromContract: int)
    returns (r: CheckR)
    requires blockSignedByVA.Valid()
    ensures r == SNodeVerdict(blockSignedByVA.Value(), validatorsFromContract, valPerBlockFromContract)
  {
    ghost var b := blockSignedByVA.Value();
    var sigCount := |blockSignedByVA.signers|;
    if sigCount != valPerBlockFromContract {
      return Failure;
    }
    if !Serializable(blockSignedByVA.Value()) {
      return Exception;
    }
    for attIndex := 0 to sigCount
      invariant SignersVerdict(b, validatorsFromContract, 0) == SignersVerdict(b, validatorsFromContract, attIndex)
    {
      var attNodeId := RecoverSignerAddress(blockSignedByVA, attIndex);
      if attNodeId.Thrown? {
        return Exception;
      }
      var allowed := attNodeId.value.Some? && attNodeId.value.value in validatorsFromContract;
      if !allowed {
        return Failure;
      }
    }
    return Success;
  }
}
