/** Purchases and their transactions (elearning/payments/models.py). Amounts are integer
    cents: the source keeps them as decimals with two places. */
module PaymentsModels {
  import opened Wrappers
  import opened Tables

  /** `Purchase.status`, a choice among four. */
  datatype PurchaseStatus = Pending | Completed | Failed | Refunded

  /** `Purchase.transaction_id`: a random UUID drawn when the row is created. */
  type Uuid = nat

  datatype Purchase = Purchase(
    student: Id,
    course: Id,
    amount: int,
    status: PurchaseStatus,
    intentId: Option<string>,
    transactionId: Uuid,
    completedAt: Option<Time>)

  /** A freshly created purchase is pending and not completed at any time. */
  function NewPurchase(student: Id, course: Id, amount: int, intentId: Option<string>, transactionId: Uuid): (p: Purchase)
    ensures p.student == student && p.course == course && p.amount == amount
    ensures p.intentId == intentId && p.transactionId == transactionId
    ensures p.status == Pending && p.completedAt.None?
  {
    Purchase(student, course, amount, Pending, intentId, transactionId, None)
  }

  /** No two purchases share a `transaction_id` (the column is unique). */
  predicate TransactionIdsUnique(purchases: map<Id, Purchase>)
  {
    forall a, b {:trigger TransactionIdOf(purchases, a), TransactionIdOf(purchases, b)} ::
      a in purchases && b in purchases && a != b ==> TransactionIdOf(purchases, a) != TransactionIdOf(purchases, b)
  }

  /** The transaction id of the purchase stored under `k`. */
  function TransactionIdOf(purchases: map<Id, Purchase>, k: Id): Uuid
    requires k in purchases
  {
    purchases[k].transactionId
  }

  /** Adding a purchase under a new id with a transaction id nobody holds keeps the ids unique. */
  lemma AddPurchaseKeepsTransactionIdsUnique(purchases: map<Id, Purchase>, id: Id, p: Purchase)
    requires TransactionIdsUnique(purchases)
    requires id !in purchases
    requires forall k :: k in purchases ==> purchases[k].transactionId != p.transactionId
    ensures TransactionIdsUnique(purchases[id := p])
  {
    var purchases' := purchases[id := p];
    forall a, b | a in purchases' && b in purchases' && a != b
      ensures TransactionIdOf(purchases', a) != TransactionIdOf(purchases', b)
    {
      if a != id && b != id {
        assert TransactionIdOf(purchases', a) == TransactionIdOf(purchases, a);
        assert TransactionIdOf(purchases', b) == TransactionIdOf(purchases, b);
      }
    }
  }

  /** Changing a purchase's status keeps the transaction ids unique. */
  lemma StatusChangeKeepsTransactionIdsUnique(purchases: map<Id, Purchase>, k: Id, status: PurchaseStatus)
    requires TransactionIdsUnique(purchases) && k in purchases
    ensures TransactionIdsUnique(purchases[k := purchases[k].(status := status)])
  {
    var purchases' := purchases[k := purchases[k].(status := status)];
    forall a, b | a in purchases' && b in purchases' && a != b
      ensures TransactionIdOf(purchases', a) != TransactionIdOf(purchases', b)
    {
      assert TransactionIdOf(purchases', a) == TransactionIdOf(purchases, a);
      assert TransactionIdOf(purchases', b) == TransactionIdOf(purchases, b);
    }
  }

  /** `Transaction.transaction_type`, a choice between two. */
  datatype TransactionType = CoursePurchase | Refund

  datatype Transaction = Transaction(
    purchase: Id,
    transactionType: TransactionType,
    amount: int,
    chargeId: Option<string>,
    description: string)
}
