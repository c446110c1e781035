/** The two persisted entities, the partial updates the admin endpoints apply to
    them, and the confirmation a delete returns. Nullable columns are `Option`s
    (`None` is SQL NULL). */
module Records {
  import opened Wrappers

  /** An instant, as milliseconds since the epoch (a JavaScript `Date`). */
  type Date = int

  /** A monetary amount in pence. `NotANumber` is JavaScript's NaN, which
      `Number.parseFloat` yields for text that is not a number. */
  datatype Amount = Pence(pence: int) | NotANumber

  /** The client-supplied columns of a payment detail row. */
  datatype PaymentFields = PaymentFields(
    payeeName: Option<string>,
    partPostcode: Option<string>,
    town: Option<string>,
    parliamentaryConstituency: Option<string>,
    countyCouncil: Option<string>,
    scheme: Option<string>,
    amount: Amount,
    financialYear: Option<string>,
    paymentDate: Option<Date>,
    schemeDetail: Option<string>,
    activityLevel: Option<string>)

  /** A row of the payment detail table: the system-assigned id, the client
      columns and the server-stamped publication date. */
  datatype PaymentDetail = PaymentDetail(id: nat, fields: PaymentFields, publishedDate: Date)

  /** A partial update: `None` leaves a column alone, `Some(v)` writes `v`
      (for a nullable column `v` may itself be `None`, writing NULL). */
  datatype PaymentPatch = PaymentPatch(
    payeeName: Option<Option<string>>,
    partPostcode: Option<Option<string>>,
    town: Option<Option<string>>,
    parliamentaryConstituency: Option<Option<string>>,
    countyCouncil: Option<Option<string>>,
    scheme: Option<Option<string>>,
    amount: Option<Amount>,
    financialYear: Option<Option<string>>,
    paymentDate: Option<Option<Date>>,
    schemeDetail: Option<Option<string>>,
    activityLevel: Option<Option<string>>)

  const NoPaymentChanges := PaymentPatch(None, None, None, None, None, None, None, None, None, None, None)

  function Overwrite<T>(current: T, supplied: Option<T>): T
  {
    if supplied.Some? then supplied.value else current
  }

  /** Sequelize's `instance.update(data)`: supplied columns are written, the
      others keep their values. */
  function ApplyPaymentPatch(f: PaymentFields, p: PaymentPatch): PaymentFields
  {
    PaymentFields(
      Overwrite(f.payeeName, p.payeeName),
      Overwrite(f.partPostcode, p.partPostcode),
      Overwrite(f.town, p.town),
      Overwrite(f.parliamentaryConstituency, p.parliamentaryConstituency),
      Overwrite(f.countyCouncil, p.countyCouncil),
      Overwrite(f.scheme, p.scheme),
      Overwrite(f.amount, p.amount),
      Overwrite(f.financialYear, p.financialYear),
      Overwrite(f.paymentDate, p.paymentDate),
      Overwrite(f.schemeDetail, p.schemeDetail),
      Overwrite(f.activityLevel, p.activityLevel))
  }

  /** `q` laid over `p`: what two successive updates write. */
  function MergePaymentPatches(p: PaymentPatch, q: PaymentPatch): PaymentPatch
  {
    PaymentPatch(
      if q.payeeName.Some? then q.payeeName else p.payeeName,
      if q.partPostcode.Some? then q.partPostcode else p.partPostcode,
      if q.town.Some? then q.town else p.town,
      if q.parliamentaryConstituency.Some? then q.parliamentaryConstituency else p.parliamentaryConstituency,
      if q.countyCouncil.Some? then q.countyCouncil else p.countyCouncil,
      if q.scheme.Some? then q.scheme else p.scheme,
      if q.amount.Some? then q.amount else p.amount,
      if q.financialYear.Some? then q.financialYear else p.financialYear,
      if q.paymentDate.Some? then q.paymentDate else p.paymentDate,
      if q.schemeDetail.Some? then q.schemeDetail else p.schemeDetail,
      if q.activityLevel.Some? then q.activityLevel else p.activityLevel)
  }

  /** Updating with no columns changes nothing; repeating an update changes
      nothing more; two updates in a row equal one update with both sets of
      columns, the later winning. */
  lemma PaymentPatchLaws(f: PaymentFields, p: PaymentPatch, q: PaymentPatch)
    ensures ApplyPaymentPatch(f, NoPaymentChanges) == f
    ensures ApplyPaymentPatch(ApplyPaymentPatch(f, p), p) == ApplyPaymentPatch(f, p)
    ensures ApplyPaymentPatch(ApplyPaymentPatch(f, p), q) == ApplyPaymentPatch(f, MergePaymentPatches(p, q))
  {
  }

  /** The columns of a scheme payments row: one aggregate per (year, scheme). */
  datatype SchemeTotal = SchemeTotal(financialYear: string, scheme: string, totalAmount: int)

  /** A row of the scheme payments table. */
  datatype SchemePayment = SchemePayment(id: nat, total: SchemeTotal)

  datatype SchemePatch = SchemePatch(financialYear: Option<string>, scheme: Option<string>, totalAmount: Option<int>)

  function ApplySchemePatch(t: SchemeTotal, p: SchemePatch): SchemeTotal
  {
    SchemeTotal(
      Overwrite(t.financialYear, p.financialYear),
      Overwrite(t.scheme, p.scheme),
      Overwrite(t.totalAmount, p.totalAmount))
  }

  /** The `{ deleted: true }` object a successful delete returns. */
  datatype Confirmation = Confirmation(deleted: bool)

  /** Ids are distinct: the primary key constraint. */
  ghost predicate UniquePaymentIds(s: seq<PaymentDetail>)
  {
    forall i, j :: 0 <= i < j < |s| ==> s[i].id != s[j].id
  }

  ghost predicate UniqueSchemeIds(s: seq<SchemePayment>)
  {
    forall i, j :: 0 <= i < j < |s| ==> s[i].id != s[j].id
  }
}
