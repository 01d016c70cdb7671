/** The closed set of webhook record kinds and their alert names
    (the record files under events/alerts and events/subscription). The records themselves are
    plain data; only the name each one is announced under matters here. */
module Kinds {
  import opened ByteText
  import opened Wrappers

  datatype Kind =
    | SubscriptionCancelled
    | SubscriptionCreated
    | SubscriptionPaymentFailed
    | SubscriptionPaymentRefunded
    | SubscriptionPaymentSucceeded
    | SubscriptionUpdated
    | HighRiskTransactionCreated
    | HighRiskTransactionUpdated
    | LockerProcessed
    | NewAudienceMember
    | PaymentDisputeClosed
    | PaymentDisputeCreated
    | PaymentRefunded
    | PaymentSucceeded
    | TransferCreated
    | TransferPaid
    | UpdateAudienceMember

  /** The `...AlertName` constant of each record type. */
  const SubscriptionCancelledAlertName: Bytes := "subscription_cancelled"
  const SubscriptionCreatedAlertName: Bytes := "subscription_created"
  const SubscriptionPaymentFailedAlertName: Bytes := "subscription_payment_failed"
  const SubscriptionPaymentRefundedAlertName: Bytes := "subscription_payment_refunded"
  const SubscriptionPaymentSucceededAlertName: Bytes := "subscription_payment_succeeded"
  const SubscriptionUpdatedAlertName: Bytes := "subscription_updated"
  const HighRiskTransactionCreatedAlertName: Bytes := "high_risk_transaction_created"
  const HighRiskTransactionUpdatedAlertName: Bytes := "high_risk_transaction_updated"
  const LockerProcessedAlertName: Bytes := "locker_processed"
  const NewAudienceMemberAlertName: Bytes := "new_audience_member"
  const PaymentDisputeClosedAlertName: Bytes := "payment_dispute_closed"
  const PaymentDisputeCreatedAlertName: Bytes := "payment_dispute_created"
  const PaymentRefundedAlertName: Bytes := "payment_refunded"
  const PaymentSucceededAlertName: Bytes := "payment_succeeded"
  const TransferCreatedAlertName: Bytes := "transfer_created"
  const TransferPaidAlertName: Bytes := "transfer_paid"
  const UpdateAudienceMemberAlertName: Bytes := "update_audience_member"

  function AlertName(k: Kind): Bytes
  {
    match k
    case SubscriptionCancelled => SubscriptionCancelledAlertName
    case SubscriptionCreated => SubscriptionCreatedAlertName
    case SubscriptionPaymentFailed => SubscriptionPaymentFailedAlertName
    case SubscriptionPaymentRefunded => SubscriptionPaymentRefundedAlertName
    case SubscriptionPaymentSucceeded => SubscriptionPaymentSucceededAlertName
    case SubscriptionUpdated => SubscriptionUpdatedAlertName
    case HighRiskTransactionCreated => HighRiskTransactionCreatedAlertName
    case HighRiskTransactionUpdated => HighRiskTransactionUpdatedAlertName
    case LockerProcessed => LockerProcessedAlertName
    case NewAudienceMember => NewAudienceMemberAlertName
    case PaymentDisputeClosed => PaymentDisputeClosedAlertName
    case PaymentDisputeCreated => PaymentDisputeCreatedAlertName
    case PaymentRefunded => PaymentRefundedAlertName
    case PaymentSucceeded => PaymentSucceededAlertName
    case TransferCreated => TransferCreatedAlertName
    case TransferPaid => TransferPaidAlertName
    case UpdateAudienceMember => UpdateAudienceMemberAlertName
  }

  /** The length of each alert name. */
  function NameLength(k: Kind): nat
  {
    match k
    case SubscriptionCancelled => 22
    case SubscriptionCreated => 20
    case SubscriptionPaymentFailed => 27
    case SubscriptionPaymentRefunded => 29
    case SubscriptionPaymentSucceeded => 30
    case SubscriptionUpdated => 20
    case HighRiskTransactionCreated => 29
    case HighRiskTransactionUpdated => 29
    case LockerProcessed => 16
    case NewAudienceMember => 19
    case PaymentDisputeClosed => 22
    case PaymentDisputeCreated => 23
    case PaymentRefunded => 16
    case PaymentSucceeded => 17
    case TransferCreated => 16
    case TransferPaid => 13
    case UpdateAudienceMember => 22
  }

  lemma NameLengths(k: Kind)
    ensures |AlertName(k)| == NameLength(k)
  {
  }

  /** The `switch ename` of unmarshalEvent: the cases in the order they are
      written, each selecting the record type announced under that name. */
  function KindOfName(name: Bytes): (r: Option<Kind>)
    ensures r.Some? ==> AlertName(r.value) == name
  {
    if name == AlertName(SubscriptionCancelled) then Some(SubscriptionCancelled)
    else if name == AlertName(SubscriptionCreated) then Some(SubscriptionCreated)
    else if name == AlertName(SubscriptionPaymentFailed) then Some(SubscriptionPaymentFailed)
    else if name == AlertName(SubscriptionPaymentRefunded) then Some(SubscriptionPaymentRefunded)
    else if name == AlertName(SubscriptionPaymentSucceeded) then Some(SubscriptionPaymentSucceeded)
    else if name == AlertName(SubscriptionUpdated) then Some(SubscriptionUpdated)
    else if name == AlertName(HighRiskTransactionCreated) then Some(HighRiskTransactionCreated)
    else if name == AlertName(HighRiskTransactionUpdated) then Some(HighRiskTransactionUpdated)
    else if name == AlertName(LockerProcessed) then Some(LockerProcessed)
    else if name == AlertName(NewAudienceMember) then Some(NewAudienceMember)
    else if name == AlertName(PaymentDisputeClosed) then Some(PaymentDisputeClosed)
    else if name == AlertName(PaymentDisputeCreated) then Some(PaymentDisputeCreated)
    else if name == AlertName(PaymentRefunded) then Some(PaymentRefunded)
    else if name == AlertName(PaymentSucceeded) then Some(PaymentSucceeded)
    else if name == AlertName(TransferCreated) then Some(TransferCreated)
    else if name == AlertName(TransferPaid) then Some(TransferPaid)
    else if name == AlertName(UpdateAudienceMember) then Some(UpdateAudienceMember)
    else None
  }

  /** Every case of the switch is reachable: the name of a kind selects that
      kind and no earlier case shadows it. */
  lemma KindOfAlertName(k: Kind)
    ensures KindOfName(AlertName(k)) == Some(k)
  {
    // Names of different lengths differ outright; the rest are compared.
    forall j ensures |AlertName(j)| == NameLength(j) {
      NameLengths(j);
    }
  }

  /** No two kinds share an alert name. */
  lemma AlertNameInjective(j: Kind, k: Kind)
    requires AlertName(j) == AlertName(k)
    ensures j == k
  {
    KindOfAlertName(j);
    KindOfAlertName(k);
  }

  /** The table is closed: a name selects a kind exactly when it is that
      kind's alert name; every other name, "" included, selects none. */
  lemma KindOfNameExact(name: Bytes, k: Kind)
    ensures KindOfName(name) == Some(k) <==> name == AlertName(k)
  {
    if name == AlertName(k) {
      KindOfAlertName(k);
    }
  }
}
