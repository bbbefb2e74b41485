/** Checkout, payment-intent creation and the payment processor's webhook
    (elearning/payments/views.py). The processor is an oracle: intent creation is a function
    parameter, and a webhook delivery arrives already verified (or refused). */
module PaymentsViews {
  import opened Wrappers
  import opened Tables
  import opened CoursesModels
  import opened PaymentsModels
  import opened Store

  // ----- checkout -----

  datatype CheckoutOutcome =
    | CheckoutCourseNotFound   // unknown or unpublished course: 404
    | EnrolledForFree          // free course: enrolled, redirected to the course
    | AlreadyEnrolled          // paid course already active: redirected to the course
    | CheckoutPage             // paid course: the payment form

  /** `checkout`: a free course is joined through get-or-create and never creates a purchase;
      a paid course only reads. */
  method Checkout(db: Database, student: Id, course: Id) returns (outcome: CheckoutOutcome)
    requires db.Valid()
    modifies db`progress
    ensures db.Valid()
    ensures var courses := db.catalog.courses;
      && (outcome == CheckoutCourseNotFound <==> course !in courses || !courses[course].isPublished)
      && (outcome == EnrolledForFree <==> course in courses && courses[course].isPublished && courses[course].isFree)
      && (outcome == AlreadyEnrolled <==>
            course in courses && courses[course].isPublished && !courses[course].isFree
            && HasActiveEnrollment(old(db.progress), student, course))
    ensures outcome == EnrolledForFree ==>
      db.progress == old(db.progress).(enrollments := EnsureEnrolled(old(db.progress.enrollments), (student, course)))
    ensures outcome != EnrolledForFree ==> db.progress == old(db.progress)
  {
    if course !in db.catalog.courses || !db.catalog.courses[course].isPublished {
      return CheckoutCourseNotFound;
    }
    if db.catalog.courses[course].isFree {
      db.progress := db.progress.(enrollments := EnsureEnrolled(db.progress.enrollments, (student, course)));
      return EnrolledForFree;
    }
    if HasActiveEnrollment(db.progress, student, course) {
      return AlreadyEnrolled;
    }
    outcome := CheckoutPage;
  }

  // ----- payment intent -----

  datatype IntentOutcome =
    | IntentCourseNotFound     // 404
    | IntentAlreadyEnrolled    // 400
    | IntentFailed             // the processor raised: 400
    | IntentCreated(intentId: string, purchase: Id)

  /** `create_payment_intent`. `createIntent` stands for the processor: given the amount in
      minor units (`int(price * 100)`, the price in cents) it returns the new intent's id, or
      `None` when the call raises. `transactionId` is the fresh random UUID of the new row. */
  method CreatePaymentIntent(db: Database, student: Id, course: Id,
                             createIntent: int -> Option<string>, transactionId: Uuid) returns (outcome: IntentOutcome)
    requires db.Valid()
    requires forall k :: k in db.payments.purchases ==> db.payments.purchases[k].transactionId != transactionId
    modifies db`payments
    ensures db.Valid()
    ensures var courses := db.catalog.courses;
      && (outcome == IntentCourseNotFound <==> course !in courses)
      && (outcome == IntentAlreadyEnrolled <==> course in courses && HasActiveEnrollment(db.progress, student, course))
      && (outcome == IntentFailed <==>
            course in courses && !HasActiveEnrollment(db.progress, student, course) && createIntent(courses[course].price).None?)
    ensures outcome.IntentCreated? ==>
      var course' := db.catalog.courses[course];
      && createIntent(course'.price) == Some(outcome.intentId)
      && outcome.purchase == old(db.payments.nextPurchaseId) && outcome.purchase !in old(db.payments.purchases)
      && db.payments == old(db.payments).(
           purchases := old(db.payments.purchases)[outcome.purchase :=
             NewPurchase(student, course, course'.price, Some(outcome.intentId), transactionId)],
           nextPurchaseId := outcome.purchase + 1)
    ensures !outcome.IntentCreated? ==> db.payments == old(db.payments)
  {
    if course !in db.catalog.courses {
      return IntentCourseNotFound;
    }
    if HasActiveEnrollment(db.progress, student, course) {
      return IntentAlreadyEnrolled;
    }
    var price := db.catalog.courses[course].price;
    var intent := createIntent(price);
    if intent.None? {
      return IntentFailed;
    }
    var id := db.payments.nextPurchaseId;
    var p := NewPurchase(student, course, price, intent, transactionId);
    AddPurchaseKeepsTransactionIdsUnique(db.payments.purchases, id, p);
    db.payments := db.payments.(purchases := db.payments.purchases[id := p], nextPurchaseId := id + 1);
    outcome := IntentCreated(intent.value, id);
  }

  // ----- webhook -----

  /** The processor's event type that completes a purchase. */
  const SucceededEvent: string := "payment_intent.succeeded"

  /** A delivery as the signature check leaves it. */
  datatype WebhookDelivery =
    | MalformedPayload
    | BadSignature
    | Verified(eventType: string, intentId: string, latestCharge: Option<string>)

  datatype WebhookOutcome = WebhookRejected /* 400 */ | WebhookAccepted /* 200 */ | WebhookFailed /* 500 */

  /** `Purchase.objects.filter(stripe_payment_intent_id=...).first()`: the most recently created
      (highest id) purchase below `n` carrying the intent id. */
  function LatestWithIntent(purchases: map<Id, Purchase>, n: nat, intentId: string): (r: Option<Id>)
    ensures r.Some? ==> r.value < n && r.value in purchases && purchases[r.value].intentId == Some(intentId)
    ensures r.Some? ==> forall k :: r.value < k < n && k in purchases ==> purchases[k].intentId != Some(intentId)
    ensures r.None? ==> forall k :: k < n && k in purchases ==> purchases[k].intentId != Some(intentId)
  {
    if n == 0 then None
    else if n - 1 in purchases && purchases[n - 1].intentId == Some(intentId) then Some(n - 1)
    else LatestWithIntent(purchases, n - 1, intentId)
  }

  /** Changing a purchase's status does not change which purchase an intent id finds. */
  lemma {:induction false} LatestWithIntentIgnoresStatus(purchases: map<Id, Purchase>, n: nat, intentId: string, k: Id, status: PurchaseStatus)
    requires k in purchases
    ensures LatestWithIntent(purchases[k := purchases[k].(status := status)], n, intentId) == LatestWithIntent(purchases, n, intentId)
  {
    if n > 0 {
      LatestWithIntentIgnoresStatus(purchases, n - 1, intentId, k, status);
    }
  }

  /** The purchase a verified success event is about, if any. */
  function MatchedPurchase(payments: PaymentsTables, delivery: WebhookDelivery): (r: Option<Id>)
    ensures r.Some? ==> delivery.Verified? && delivery.eventType == SucceededEvent
    ensures r.Some? ==> r.value < payments.nextPurchaseId && r.value in payments.purchases
    ensures r.Some? ==> payments.purchases[r.value].intentId == Some(delivery.intentId)
    ensures delivery.Verified? && delivery.eventType == SucceededEvent && r.None? ==>
      forall k :: k in payments.purchases && k < payments.nextPurchaseId ==> payments.purchases[k].intentId != Some(delivery.intentId)
  {
    if delivery.Verified? && delivery.eventType == SucceededEvent
    then LatestWithIntent(payments.purchases, payments.nextPurchaseId, delivery.intentId)
    else None
  }

  /** The transaction a completed purchase logs. */
  function PurchaseTransaction(purchase: Id, p: Purchase, c: Course, charge: Option<string>): Transaction
  {
    Transaction(purchase, CoursePurchase, p.amount, charge, "Purchase of " + c.title)
  }

  /** `stripe_webhook`. A refused delivery (400), another event type or an unknown intent (200)
      changes nothing. A success event marks the purchase completed whatever its status was
      (without setting `completed_at`), gets or creates the active enrollment and appends one
      transaction. If the student's enrollment exists but is inactive, the enrollment insert
      clashes with it: the request fails after the purchase was saved, and no transaction is
      written. */
  method StripeWebhook(db: Database, delivery: WebhookDelivery) returns (outcome: WebhookOutcome)
    requires db.Valid()
    modifies db`payments, db`progress
    ensures db.Valid()
    ensures outcome == WebhookRejected <==> !delivery.Verified?
    ensures old(MatchedPurchase(db.payments, delivery)).None? ==>
      outcome != WebhookFailed && db.payments == old(db.payments) && db.progress == old(db.progress)
    ensures old(MatchedPurchase(db.payments, delivery)).Some? ==>
      var k, pays, enrollments := old(MatchedPurchase(db.payments, delivery)).value, old(db.payments), old(db.progress.enrollments);
      var p := pays.purchases[k];
      var completed := pays.purchases[k := p.(status := Completed)];
      && (outcome == WebhookFailed <==> EnsureActiveEnrolled(enrollments, (p.student, p.course)).None?)
      && (outcome == WebhookFailed ==>
            db.payments == pays.(purchases := completed) && db.progress == old(db.progress))
      && (outcome != WebhookFailed ==>
            && outcome == WebhookAccepted
            && db.progress == old(db.progress).(enrollments := EnsureEnrolled(enrollments, (p.student, p.course)))
            && db.progress.enrollments[(p.student, p.course)].isActive
            && db.payments == pays.(
                 purchases := completed,
                 transactions := pays.transactions[pays.nextTransactionId :=
                   PurchaseTransaction(k, p, db.catalog.courses[p.course], delivery.latestCharge)],
                 nextTransactionId := pays.nextTransactionId + 1))
  {
    if !delivery.Verified? {
      return WebhookRejected;
    }
    var matched := MatchedPurchase(db.payments, delivery);
    if matched.None? {
      return WebhookAccepted;
    }
    var k := matched.value;
    var p := db.payments.purchases[k];
    StatusChangeKeepsTransactionIdsUnique(db.payments.purchases, k, Completed);
    db.payments := db.payments.(purchases := db.payments.purchases[k := p.(status := Completed)]);

    var enrolled := EnsureActiveEnrolled(db.progress.enrollments, (p.student, p.course));
    if enrolled.None? {
      return WebhookFailed;
    }
    db.progress := db.progress.(enrollments := enrolled.value);

    var t := db.payments.nextTransactionId;
    var row := PurchaseTransaction(k, p, db.catalog.courses[p.course], delivery.latestCharge);
    db.payments := db.payments.(transactions := db.payments.transactions[t := row], nextTransactionId := t + 1);
    outcome := WebhookAccepted;
  }

  /** The same success event delivered twice: the second delivery adds no enrollment, but it
      does append a second transaction. */
  method DeliverTwice(db: Database, delivery: WebhookDelivery) returns (first: WebhookOutcome, second: WebhookOutcome)
    requires db.Valid()
    requires MatchedPurchase(db.payments, delivery).Some?
    requires var p := db.payments.purchases[MatchedPurchase(db.payments, delivery).value];
      EnsureActiveEnrolled(db.progress.enrollments, (p.student, p.course)).Some?
    modifies db`payments, db`progress
    ensures first == WebhookAccepted && second == WebhookAccepted
    ensures var p := old(db.payments.purchases)[old(MatchedPurchase(db.payments, delivery)).value];
      db.progress.enrollments == EnsureEnrolled(old(db.progress.enrollments), (p.student, p.course))
    ensures db.payments.nextTransactionId == old(db.payments.nextTransactionId) + 2
    ensures old(db.payments.nextTransactionId) in db.payments.transactions
    ensures old(db.payments.nextTransactionId) + 1 in db.payments.transactions
  {
    ghost var k := MatchedPurchase(db.payments, delivery).value;
    LatestWithIntentIgnoresStatus(db.payments.purchases, db.payments.nextPurchaseId, delivery.intentId, k, Completed);
    first := StripeWebhook(db, delivery);
    second := StripeWebhook(db, delivery);
  }
}
