/** The in-memory stand-in for the relational database: the payment detail
    table and the scheme payments table, with the auto-increment counters that
    assign primary keys. Every data module operates on one `Tables` object. */
module Database {
  import opened Records

  class Tables {
    var paymentDetails: seq<PaymentDetail>
    var schemePayments: seq<SchemePayment>
    var nextPaymentId: nat
    var nextSchemeId: nat

    /** Primary keys are positive, below the counter that issues the next one,
        and distinct within each table. */
    ghost predicate Valid()
      reads this
    {
      && 1 <= nextPaymentId && 1 <= nextSchemeId
      && (forall i :: 0 <= i < |paymentDetails| ==> 1 <= paymentDetails[i].id < nextPaymentId)
      && (forall i :: 0 <= i < |schemePayments| ==> 1 <= schemePayments[i].id < nextSchemeId)
      && UniquePaymentIds(paymentDetails)
      && UniqueSchemeIds(schemePayments)
    }

    constructor ()
      ensures Valid()
      ensures paymentDetails == [] && schemePayments == []
    {
      paymentDetails := [];
      schemePayments := [];
      nextPaymentId := 1;
      nextSchemeId := 1;
    }
  }
}
