/**
 The block message: its value (what its serialized bytes say) and the mutable object the code patches.
 Signatures are symbolic: they name their signer and the exact value that was signed.
 */
module BlockPb {
  import opened Prelude
  import opened ValidatorRandom

  /** One entry of an attestor-data list. `Undefined` is what JavaScript reads past the end of a list. */
  datatype VoteData = Undefined | Vote(value: int)

  const ACCEPTED := 1
  const REJECTED := 2

  /** `size` is the length of the serialized transaction. */
  datatype Transaction = Transaction(
    category: string, sender: string, recipients: seq<string>, apiToken: Token, content: string, size: nat)

  datatype TxValue = TxValue(tx: Option<Transaction>, validatorVote: Option<int>, attestorVotes: seq<VoteData>)

  datatype Block = Block(ts: int, attestToken: Token, txs: seq<TxValue>, signers: seq<Signature>)

  /** `Malformed` stands for bytes, or missing bytes, from which no address can be recovered at all. */
  datatype Signature = Signature(signer: NodeId, payload: Block) | Malformed

  datatype Patch = Patch(votes: seq<VoteData>, signer: Signature)

  /** The address a signature recovers to; `None` stands for an address that no node owns. */
  function Recover(payload: Block, sig: Signature): Result<Option<NodeId>> {
    match sig
    case Signature(signer, signed) => Ok(if signed == payload then Some(signer) else None)
    case Malformed => Thrown("invalid signature")
  }

  /** The hash of a block; hashing is taken to be free of collisions. */
  datatype BlockHash = HashOf(block: Block)

  /** Serializing a block with an undefined vote throws. */
  predicate Serializable(b: Block) {
    forall i, j :: 0 <= i < |b.txs| && 0 <= j < |b.txs[i].attestorVotes| ==> b.txs[i].attestorVotes[j] != Undefined
  }

  class TransactionObj {
    var tx: Option<Transaction>
    var validatorVote: Option<int>
    var attestorVotes: seq<VoteData>

    constructor (v: TxValue)
      ensures Value() == v
    {
      tx, validatorVote, attestorVotes := v.tx, v.validatorVote, v.attestorVotes;
    }

    function Value(): TxValue
      reads this
    {
      TxValue(tx, validatorVote, attestorVotes)
    }
  }

  class BlockObj {
    var ts: int
    var attestToken: Token
    var txObjs: seq<TransactionObj>
    var signers: seq<Signature>

    /** No transaction object occurs twice, so patching one position leaves the others alone. */
    ghost predicate Valid()
      reads this
    {
      Distinct(txObjs)
    }

    function Value(): Block
      reads this, txObjs
    {
      Block(ts, attestToken, seq(|txObjs|, i requires 0 <= i < |txObjs| reads this, txObjs => txObjs[i].Value()), signers)
    }

    /** Reads a block back from its bytes: a copy that shares nothing with existing objects. */
    constructor Deserialize(v: Block)
      ensures Valid() && Value() == v
      ensures fresh(txObjs)
    {
      ts, attestToken, signers := v.ts, v.attestToken, v.signers;
      txObjs := [];
      new;
      for i := 0 to |v.txs|
        invariant |txObjs| == i && Valid() && fresh(txObjs)
        invariant ts == v.ts && attestToken == v.attestToken && signers == v.signers
        invariant forall k :: 0 <= k < i ==> txObjs[k].Value() == v.txs[k]
      {
        var o := new TransactionObj(v.txs[i]);
        txObjs := txObjs + [o];
      }
    }
  }

  /** Two block objects without a common part: patching one leaves the other alone. */
  ghost predicate Apart(a: BlockObj, b: BlockObj)
    reads a, b
  {
    a != b && forall o :: o in a.txObjs ==> o !in b.txObjs
  }
}
