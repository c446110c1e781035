/** The admin data layer over the scheme payments table: the listing in
    report order, point lookup, create, update and delete by id. The two
    source modules that expose these five operations have the same
    behaviour, so both are modelled by this one module. */
module PaymentsSummaryAdmin {
  import opened Wrappers
  import opened Seqs
  import opened Text
  import opened Sorting
  import opened Records
  import opened Database

  // ---------------------------------------------------------------------------
  // Listing

  /** ORDER BY financial_year DESC, scheme ASC: `a` may come before `b`. */
  function ReportOrder(a: SchemePayment, b: SchemePayment): bool
  {
    || StrLt(b.total.financialYear, a.total.financialYear)
    || (a.total.financialYear == b.total.financialYear && StrLe(a.total.scheme, b.total.scheme))
  }

  lemma ReportOrderIsTotalPreorder()
    ensures TotalPreorder(ReportOrder)
  {
    StrLeOrder();
    forall a, b ensures ReportOrder(a, b) || ReportOrder(b, a) {
      StrLeTotal(a.total.financialYear, b.total.financialYear);
      StrLeTotal(a.total.scheme, b.total.scheme);
    }
    forall a, b, c | ReportOrder(a, b) && ReportOrder(b, c) ensures ReportOrder(a, c) {
      ReportOrderTransitive(a, b, c);
    }
  }

  lemma ReportOrderTransitive(a: SchemePayment, b: SchemePayment, c: SchemePayment)
    requires ReportOrder(a, b) && ReportOrder(b, c)
    ensures ReportOrder(a, c)
  {
    var ya, yb, yc := a.total.financialYear, b.total.financialYear, c.total.financialYear;
    StrLeOrder();
    if ya == yb && yb == yc {
      StrLeTransitive(a.total.scheme, b.total.scheme, c.total.scheme);
    } else {
      assert StrLe(yc, yb) && StrLe(yb, ya);
      StrLeTransitive(yc, yb, ya);
      if yc == ya {
        StrLeAntisymmetric(ya, yb);
        StrLeAntisymmetric(yb, yc);
      }
    }
  }

  /** `getAllPaymentSummaries()`: every row of the table, newest year first
      and, within a year, schemes in ascending order. */
  function GetAllPaymentSummaries(db: Tables): (r: seq<SchemePayment>)
    reads db
    ensures multiset(r) == multiset(db.schemePayments)
    ensures forall i, j :: 0 <= i < j < |r| ==>
      || StrLt(r[j].total.financialYear, r[i].total.financialYear)
      || (r[i].total.financialYear == r[j].total.financialYear && StrLe(r[i].total.scheme, r[j].total.scheme))
  {
    ReportOrderIsTotalPreorder();
    SortSorted(db.schemePayments, ReportOrder);
    var r := SortBy(db.schemePayments, ReportOrder);
    assert forall i, j :: 0 <= i < j < |r| ==> ReportOrder(r[i], r[j]);
    r
  }

  // ---------------------------------------------------------------------------
  // Point lookup

  function HasId(id: int): SchemePayment -> bool
  {
    (r: SchemePayment) => r.id == id
  }

  /** `getPaymentSummaryById(id)`: the row with that id, or `None` (the
      source's `null`). */
  function GetPaymentSummaryById(db: Tables, id: int): (r: Option<SchemePayment>)
    reads db
    ensures r.Some? ==> r.value in db.schemePayments && r.value.id == id
    ensures r.None? <==> forall i :: 0 <= i < |db.schemePayments| ==> db.schemePayments[i].id != id
  {
    match IndexWhere(db.schemePayments, HasId(id))
    case None => None
    case Some(i) => Some(db.schemePayments[i])
  }

  /** With distinct ids, the lookup finds the one row carrying the id. */
  lemma LookupFindsRow(db: Tables, k: nat)
    requires UniqueSchemeIds(db.schemePayments) && k < |db.schemePayments|
    ensures GetPaymentSummaryById(db, db.schemePayments[k].id) == Some(db.schemePayments[k])
  {
    var r := GetPaymentSummaryById(db, db.schemePayments[k].id);
    var i :| 0 <= i < |db.schemePayments| && db.schemePayments[i] == r.value;
    assert i == k;
  }

  // ---------------------------------------------------------------------------
  // Create, update, delete

  /** `createPaymentSummary(data)`: a new row with the supplied columns and a
      fresh id, which the lookup then finds. */
  method CreatePaymentSummary(db: Tables, data: SchemeTotal) returns (r: SchemePayment)
    requires db.Valid()
    modifies db
    ensures db.Valid()
    ensures r.total == data
    ensures forall i :: 0 <= i < |old(db.schemePayments)| ==> old(db.schemePayments)[i].id != r.id
    ensures db.schemePayments == old(db.schemePayments) + [r]
    ensures db.paymentDetails == old(db.paymentDetails)
    ensures GetPaymentSummaryById(db, r.id) == Some(r)
    ensures r.id == old(db.nextSchemeId) && db.nextSchemeId == old(db.nextSchemeId) + 1
    ensures db.nextPaymentId == old(db.nextPaymentId)
  {
    r := SchemePayment(db.nextSchemeId, data);
    db.schemePayments := db.schemePayments + [r];
    db.nextSchemeId := db.nextSchemeId + 1;
    LookupFindsRow(db, |db.schemePayments| - 1);
  }

  /** `updatePaymentSummary(id, data)`: `None` and no change when no row has
      that id; otherwise the supplied columns are written into that row (its
      id, its other columns and every other row stay as they were) and the
      updated row is returned. */
  method UpdatePaymentSummary(db: Tables, id: int, data: SchemePatch) returns (r: Option<SchemePayment>)
    requires db.Valid()
    modifies db
    ensures db.Valid()
    ensures old(GetPaymentSummaryById(db, id)).None? ==> r.None? && db.schemePayments == old(db.schemePayments)
    ensures old(GetPaymentSummaryById(db, id)).Some? ==>
      var before := old(GetPaymentSummaryById(db, id)).value;
      && r == Some(SchemePayment(id, ApplySchemePatch(before.total, data)))
      && |db.schemePayments| == |old(db.schemePayments)|
      && (forall i :: 0 <= i < |db.schemePayments| ==>
            db.schemePayments[i] == if old(db.schemePayments)[i].id == id then r.value else old(db.schemePayments)[i])
      && GetPaymentSummaryById(db, id) == r
    ensures db.paymentDetails == old(db.paymentDetails)
    ensures db.nextPaymentId == old(db.nextPaymentId) && db.nextSchemeId == old(db.nextSchemeId)
  {
    var found := IndexWhere(db.schemePayments, HasId(id));
    if found.None? {
      return None;
    }
    var i := found.value;
    var summary := db.schemePayments[i];
    var updated := summary.(total := ApplySchemePatch(summary.total, data));
    db.schemePayments := db.schemePayments[i := updated];
    LookupFindsRow(db, i);
    r := Some(updated);
  }

  /** `deletePaymentSummary(id)`: `None` and no change when no row has that
      id; otherwise exactly that row is removed and `{ deleted: true }` is
      returned. Either way no row with that id remains. */
  method DeletePaymentSummary(db: Tables, id: int) returns (r: Option<Confirmation>)
    requires db.Valid()
    modifies db
    ensures db.Valid()
    ensures old(GetPaymentSummaryById(db, id)).None? ==> r.None? && db.schemePayments == old(db.schemePayments)
    ensures old(GetPaymentSummaryById(db, id)).Some? ==>
      && r == Some(Confirmation(true))
      && db.schemePayments == Filter(old(db.schemePayments), (s: SchemePayment) => s.id != id)
      && |db.schemePayments| == |old(db.schemePayments)| - 1
    ensures GetPaymentSummaryById(db, id).None?
    ensures db.paymentDetails == old(db.paymentDetails)
    ensures db.nextPaymentId == old(db.nextPaymentId) && db.nextSchemeId == old(db.nextSchemeId)
  {
    var found := IndexWhere(db.schemePayments, HasId(id));
    if found.None? {
      return None;
    }
    var i := found.value;
    var before := db.schemePayments;
    CutRow(before, i, id, db.nextSchemeId);
    db.schemePayments := before[..i] + before[i + 1..];
    r := Some(Confirmation(true));
  }

  /** Cutting out the row at `i` keeps the ids distinct and in range and
      leaves no row with its id. */
  lemma CutRow(rows: seq<SchemePayment>, i: nat, id: int, next: nat)
    requires UniqueSchemeIds(rows) && i < |rows| && rows[i].id == id
    requires forall k :: 0 <= k < |rows| ==> 1 <= rows[k].id < next
    ensures var cut := rows[..i] + rows[i + 1..];
      && cut == Filter(rows, (s: SchemePayment) => s.id != id)
      && |cut| == |rows| - 1
      && UniqueSchemeIds(cut)
      && (forall k :: 0 <= k < |cut| ==> 1 <= cut[k].id < next && cut[k].id != id)
  {
    var cut := rows[..i] + rows[i + 1..];
    RemoveOnlyRowWithId(rows, i, id);
    forall k | 0 <= k < |cut| ensures cut[k] == rows[if k < i then k else k + 1] {
    }
  }

  /** With distinct ids, cutting out the row at `i` is filtering out its id. */
  lemma {:induction false} RemoveOnlyRowWithId(rows: seq<SchemePayment>, i: nat, id: int)
    requires UniqueSchemeIds(rows) && i < |rows| && rows[i].id == id
    ensures rows[..i] + rows[i + 1..] == Filter(rows, (s: SchemePayment) => s.id != id)
  {
    var keep := (s: SchemePayment) => s.id != id;
    forall j | 0 <= j < |rows| && j != i ensures keep(rows[j]) {
      if j < i {
        assert rows[j].id != rows[i].id;
      } else {
        assert rows[i].id != rows[j].id;
      }
    }
    FilterOutOne(rows, i, keep);
  }

  /** An empty update body changes nothing; applying the same update twice
      is applying it once. */
  lemma SchemePatchLaws(t: SchemeTotal, p: SchemePatch)
    ensures ApplySchemePatch(t, SchemePatch(None, None, None)) == t
    ensures ApplySchemePatch(ApplySchemePatch(t, p), p) == ApplySchemePatch(t, p)
    ensures p.totalAmount.Some? ==> ApplySchemePatch(t, p).totalAmount == p.totalAmount.value
    ensures p.totalAmount.None? ==> ApplySchemePatch(t, p).totalAmount == t.totalAmount
  {
  }
}
