/** The admin data layer over the payment detail table: point lookup, create,
    update and delete by id, purge of a financial year from both tables, the
    list of financial years, paginated listing and payee search, and bulk
    upload of parsed CSV rows. */
module PaymentsAdmin {
  import opened Wrappers
  import opened Seqs
  import opened Text
  import opened SqlLike
  import opened Sorting
  import opened Paging
  import opened Records
  import opened Database

  // ---------------------------------------------------------------------------
  // Point lookup

  function HasId(id: int): PaymentDetail -> bool
  {
    (r: PaymentDetail) => r.id == id
  }

  /** `findByPk(id)`: the row with that id, or `None` (the source's `null`). */
  function GetPaymentById(db: Tables, id: int): (r: Option<PaymentDetail>)
    reads db
    ensures r.Some? ==> r.value in db.paymentDetails && r.value.id == id
    ensures r.None? <==> forall i :: 0 <= i < |db.paymentDetails| ==> db.paymentDetails[i].id != id
  {
    match IndexWhere(db.paymentDetails, HasId(id))
    case None => None
    case Some(i) => Some(db.paymentDetails[i])
  }

  // ---------------------------------------------------------------------------
  // Listing and search

  /** ORDER BY id DESC. */
  function NewerFirst(a: PaymentDetail, b: PaymentDetail): bool
  {
    a.id >= b.id
  }

  lemma NewerFirstIsTotalPreorder()
    ensures TotalPreorder(NewerFirst)
  {
  }

  /** The table in descending id order: a permutation of the rows, strictly
      descending by id (so the only such arrangement). */
  function NewestFirst(rows: seq<PaymentDetail>): (o: seq<PaymentDetail>)
    requires UniquePaymentIds(rows)
    ensures |o| == |rows| && multiset(o) == multiset(rows)
    ensures forall i, j :: 0 <= i < j < |o| ==> o[i].id > o[j].id
  {
    NewerFirstIsTotalPreorder();
    SortSorted(rows, NewerFirst);
    var o := SortBy(rows, NewerFirst);
    PermutationKeepsUniqueIds(rows, o);
    o
  }

  /** One page of `rows` in descending id order: `findAndCountAll` with
      `limit`, `offset = (page - 1) * limit` and `order: [['id', 'DESC']]`,
      returned with `page` and `totalPages = Math.ceil(count / limit)`. */
  function ListPage(rows: seq<PaymentDetail>, page: nat, limit: nat): (r: Page<PaymentDetail>)
    requires page >= 1 && limit >= 1
    requires UniquePaymentIds(rows)
    ensures r.count == |rows| && r.page == page && |r.rows| <= limit
    ensures |r.rows| == Min(limit, if Offset(page, limit) <= |rows| then |rows| - Offset(page, limit) else 0)
    ensures r.totalPages == CeilDiv(|rows|, limit)
    ensures forall i :: 0 <= i < |r.rows| ==> r.rows[i] in rows
    ensures r.rows != [] ==> Offset(page, limit) + |r.rows| <= |rows|
    ensures forall i :: 0 <= i < |r.rows| ==> r.rows[i] == NewestFirst(rows)[Offset(page, limit) + i]
    ensures Offset(page, limit) >= |rows| <==> r.rows == []
  {
    var ordered := NewestFirst(rows);
    var r := Paginate(ordered, page, limit);
    assert forall i :: 0 <= i < |r.rows| ==> r.rows[i] in multiset(ordered);
    r
  }

  lemma PermutationKeepsUniqueIds(rows: seq<PaymentDetail>, o: seq<PaymentDetail>)
    requires UniquePaymentIds(rows) && multiset(o) == multiset(rows)
    ensures UniquePaymentIds(o)
  {
    forall i, j | 0 <= i < j < |o| ensures o[i].id != o[j].id {
      if o[i].id == o[j].id {
        assert o[i] in multiset(rows) && o[j] in multiset(rows);
        var a :| 0 <= a < |rows| && rows[a] == o[i];
        var b :| 0 <= b < |rows| && rows[b] == o[j];
        assert multiset(o)[o[i]] >= 2 by {
          assert o == o[..j] + [o[j]] + o[j + 1..];
          assert o[i] in o[..j];
        }
        Sorting.DistinctMultiset(rows, o[i]);
      }
    }
  }

  /** `getAllPaymentsForAdmin(page = 1, limit = 20)`: the whole table, paged. */
  function GetAllPaymentsForAdmin(db: Tables, page: nat := 1, limit: nat := 20): (r: Page<PaymentDetail>)
    reads db
    requires db.Valid() && page >= 1 && limit >= 1
    ensures r == ListPage(db.paymentDetails, page, limit)
    ensures r.count == |db.paymentDetails| && r.page == page && |r.rows| <= limit
    ensures |r.rows| == Min(limit, if Offset(page, limit) <= r.count then r.count - Offset(page, limit) else 0)
  {
    ListPage(db.paymentDetails, page, limit)
  }

  /** The WHERE clause of the admin search: `payee_name ILIKE '%<s>%'`.
      A NULL payee name matches nothing. */
  function PayeeMatches(s: string): PaymentDetail -> bool
  {
    (r: PaymentDetail) => r.fields.payeeName.Some? && ILike(r.fields.payeeName.value, ContainsPattern(s))
  }

  /** `searchPaymentsForAdmin(searchString, page = 1, limit = 20)`: an empty
      search string applies no filter; otherwise only rows whose payee name
      matches are counted and paged, in the same order and page arithmetic. */
  function SearchPaymentsForAdmin(db: Tables, searchString: string, page: nat := 1, limit: nat := 20): (r: Page<PaymentDetail>)
    reads db
    requires db.Valid() && page >= 1 && limit >= 1
    ensures searchString == "" ==> r == GetAllPaymentsForAdmin(db, page, limit)
    ensures searchString != "" ==> r.count == Count(db.paymentDetails, PayeeMatches(searchString))
    ensures forall i :: 0 <= i < |r.rows| ==> r.rows[i] in db.paymentDetails
    ensures searchString != "" ==> forall i :: 0 <= i < |r.rows| ==> PayeeMatches(searchString)(r.rows[i])
    ensures searchString != "" ==>
      var matching := Filter(db.paymentDetails, PayeeMatches(searchString));
      UniquePaymentIds(matching) && r == ListPage(matching, page, limit)
    ensures r.page == page && |r.rows| <= limit && r.totalPages == CeilDiv(r.count, limit)
    ensures |r.rows| == Min(limit, if Offset(page, limit) <= r.count then r.count - Offset(page, limit) else 0)
  {
    if searchString == "" then ListPage(db.paymentDetails, page, limit)
    else
      var matching := Filter(db.paymentDetails, PayeeMatches(searchString));
      MatchesKeepUniqueIds(db.paymentDetails, searchString);
      ListPage(matching, page, limit)
  }

  /** The rows a search keeps are counted by the WHERE clause and keep
      distinct ids. */
  lemma MatchesKeepUniqueIds(rows: seq<PaymentDetail>, searchString: string)
    requires UniquePaymentIds(rows)
    ensures |Filter(rows, PayeeMatches(searchString))| == Count(rows, PayeeMatches(searchString))
    ensures UniquePaymentIds(Filter(rows, PayeeMatches(searchString)))
  {
    FilterCount(rows, PayeeMatches(searchString));
    FilterPairwise(rows, PayeeMatches(searchString), (a: PaymentDetail, b: PaymentDetail) => a.id != b.id);
  }

  /** For a search string without `%` or `_`, a row is found exactly when its
      payee name contains the search string, ignoring ASCII letter case. */
  lemma SearchIsCaseInsensitiveSubstring(r: PaymentDetail, searchString: string)
    requires Literal(searchString)
    ensures PayeeMatches(searchString)(r) <==>
      r.fields.payeeName.Some? && Contains(LowerAll(r.fields.payeeName.value), LowerAll(searchString))
  {
    if r.fields.payeeName.Some? {
      ILikeIsCaseInsensitiveSubstring(r.fields.payeeName.value, searchString);
    }
  }

  lemma {:induction false} FilterCount<T>(s: seq<T>, p: T -> bool)
    ensures |Filter(s, p)| == Count(s, p)
  {
    if s != [] {
      FilterCount(s[1..], p);
    }
  }

  // ---------------------------------------------------------------------------
  // Financial years

  function YearOf(r: PaymentDetail): Option<string>
  {
    r.fields.financialYear
  }

  /** ORDER BY financial_year DESC, with NULL first as PostgreSQL puts it. */
  function YearDescending(a: Option<string>, b: Option<string>): bool
  {
    a.None? || (b.Some? && StrLe(b.value, a.value))
  }

  lemma YearDescendingIsTotalPreorder()
    ensures TotalPreorder(YearDescending)
  {
    StrLeOrder();
  }

  /** `findAll({ attributes: ['financial_year'], group: ['financial_year'],
      order: [['financial_year', 'DESC']] })`: each distinct year once, in
      descending order. */
  function GroupedYears(rows: seq<PaymentDetail>): seq<Option<string>>
  {
    SortBy(Distinct(Map(rows, YearOf)), YearDescending)
  }

  /** `map(y => y.financial_year).filter(Boolean)`: NULL and the empty string
      are falsy and dropped; the order is kept. */
  function Truthy(ys: seq<Option<string>>): (r: seq<string>)
    ensures forall i :: 0 <= i < |r| ==> r[i] != "" && Some(r[i]) in ys
    ensures forall i :: 0 <= i < |ys| && ys[i].Some? && ys[i].value != "" ==> ys[i].value in r
  {
    if ys == [] then []
    else if ys[0].Some? && ys[0].value != "" then [ys[0].value] + Truthy(ys[1..])
    else Truthy(ys[1..])
  }

  ghost predicate StrictlyDescending(r: seq<string>)
  {
    forall i, j :: 0 <= i < j < |r| ==> StrLt(r[j], r[i])
  }

  /** On a year list without repetitions in descending order, the kept years
      are strictly descending. */
  lemma {:induction false} TruthyStrictlyDescending(ys: seq<Option<string>>)
    requires Pairwise(ys, YearDescending)
    requires NoRepeats(ys)
    ensures StrictlyDescending(Truthy(ys))
  {
    if ys != [] {
      var tail := ys[1..];
      assert Pairwise(tail, YearDescending) by {
        forall i, j | 0 <= i < j < |tail| ensures YearDescending(tail[i], tail[j]) {
          assert tail[i] == ys[i + 1] && tail[j] == ys[j + 1];
        }
      }
      TruthyStrictlyDescending(tail);
      if ys[0].Some? && ys[0].value != "" {
        var t := Truthy(tail);
        forall j | 0 <= j < |t| ensures StrLt(t[j], ys[0].value) {
          assert Some(t[j]) in tail;
          var k :| 0 <= k < |tail| && tail[k] == Some(t[j]);
          assert ys[k + 1] == Some(t[j]);
          assert YearDescending(ys[0], ys[k + 1]);
        }
        PrependStrictlyDescending(ys[0].value, t);
      }
    }
  }

  lemma PrependStrictlyDescending(x: string, t: seq<string>)
    requires StrictlyDescending(t)
    requires forall j :: 0 <= j < |t| ==> StrLt(t[j], x)
    ensures StrictlyDescending([x] + t)
  {
    var r := [x] + t;
    forall i, j | 0 <= i < j < |r| ensures StrLt(r[j], r[i]) {
      if i > 0 {
        assert r[i] == t[i - 1] && r[j] == t[j - 1];
      } else {
        assert r[j] == t[j - 1];
      }
    }
  }

  /** What `getFinancialYears()` returns for a table: every non-empty year
      present, once each, strictly descending. */
  lemma FinancialYearsFacts(rows: seq<PaymentDetail>)
    ensures var r := Truthy(GroupedYears(rows));
      && StrictlyDescending(r)
      && (forall i :: 0 <= i < |r| ==> r[i] != "" && Some(r[i]) in Map(rows, YearOf))
      && (forall k :: 0 <= k < |rows| && YearOf(rows[k]).Some? && YearOf(rows[k]).value != "" ==>
            YearOf(rows[k]).value in r)
  {
    var years := Map(rows, YearOf);
    var distinct := Distinct(years);
    var grouped := SortBy(distinct, YearDescending);
    YearDescendingIsTotalPreorder();
    SortSorted(distinct, YearDescending);
    SortDistinct(distinct, YearDescending);
    TruthyStrictlyDescending(grouped);
    var r := Truthy(grouped);
    forall i | 0 <= i < |r| ensures Some(r[i]) in years {
      assert Some(r[i]) in multiset(grouped);
      assert Some(r[i]) in distinct;
    }
    forall k | 0 <= k < |rows| && YearOf(rows[k]).Some? && YearOf(rows[k]).value != ""
      ensures YearOf(rows[k]).value in r
    {
      assert years[k] in distinct;
      assert years[k] in multiset(grouped);
      var g :| 0 <= g < |grouped| && grouped[g] == years[k];
    }
  }

  /** `getFinancialYears()`: every non-empty year present in the table, once
      each, strictly descending. */
  function GetFinancialYears(db: Tables): (r: seq<string>)
    reads db
    ensures StrictlyDescending(r)
    ensures forall i :: 0 <= i < |r| ==> r[i] != "" && Some(r[i]) in Map(db.paymentDetails, YearOf)
    ensures forall k :: (0 <= k < |db.paymentDetails| && YearOf(db.paymentDetails[k]).Some?
      && YearOf(db.paymentDetails[k]).value != "") ==> YearOf(db.paymentDetails[k]).value in r
  {
    FinancialYearsFacts(db.paymentDetails);
    Truthy(GroupedYears(db.paymentDetails))
  }

  /** The years come back in the order the query gives them, with a NULL year
      and an empty year dropped. */
  lemma FinancialYearsExample()
    ensures Truthy([Some("23/24"), None, Some("22/23")]) == ["23/24", "22/23"]
    ensures Truthy([Some(""), Some("21/22")]) == ["21/22"]
  {
    var a := [Some("23/24"), None, Some("22/23")];
    assert a[1..] == [None, Some("22/23")] && a[1..][1..] == [Some("22/23")];
    assert Truthy([Some("22/23")]) == ["22/23"];
    var b := [Some(""), Some("21/22")];
    assert b[1..] == [Some("21/22")];
    assert Truthy([Some("21/22")]) == ["21/22"];
  }

  // ---------------------------------------------------------------------------
  // Create, update, delete

  /** `createPayment(paymentData)`: a new row with the supplied columns, a
      fresh id and `published_date` set to the clock reading `now`. */
  method CreatePayment(db: Tables, paymentData: PaymentFields, now: Date) returns (r: PaymentDetail)
    requires db.Valid()
    modifies db
    ensures db.Valid()
    ensures r.fields == paymentData && r.publishedDate == now
    ensures forall i :: 0 <= i < |old(db.paymentDetails)| ==> old(db.paymentDetails)[i].id != r.id
    ensures db.paymentDetails == old(db.paymentDetails) + [r]
    ensures db.schemePayments == old(db.schemePayments)
    ensures GetPaymentById(db, r.id) == Some(r)
    ensures r.id == old(db.nextPaymentId) && db.nextPaymentId == old(db.nextPaymentId) + 1
    ensures db.nextSchemeId == old(db.nextSchemeId)
  {
    r := PaymentDetail(db.nextPaymentId, paymentData, now);
    db.paymentDetails := db.paymentDetails + [r];
    db.nextPaymentId := db.nextPaymentId + 1;
    assert db.paymentDetails[|db.paymentDetails| - 1] == r;
  }

  /** `updatePayment(id, paymentData)`: `None` and no change when no row has
      that id; otherwise the supplied columns are written into that row (its
      id, its publication date, its other columns and every other row stay as
      they were) and the updated row is returned. */
  method UpdatePayment(db: Tables, id: int, paymentData: PaymentPatch) returns (r: Option<PaymentDetail>)
    requires db.Valid()
    modifies db
    ensures db.Valid()
    ensures old(GetPaymentById(db, id)).None? ==> r.None? && db.paymentDetails == old(db.paymentDetails)
    ensures old(GetPaymentById(db, id)).Some? ==>
      var before := old(GetPaymentById(db, id)).value;
      && r == Some(before.(fields := ApplyPaymentPatch(before.fields, paymentData)))
      && |db.paymentDetails| == |old(db.paymentDetails)|
      && (forall i :: 0 <= i < |db.paymentDetails| ==>
            db.paymentDetails[i] == if old(db.paymentDetails)[i].id == id then r.value else old(db.paymentDetails)[i])
    ensures db.schemePayments == old(db.schemePayments)
    ensures db.nextPaymentId == old(db.nextPaymentId) && db.nextSchemeId == old(db.nextSchemeId)
  {
    var found := IndexWhere(db.paymentDetails, HasId(id));
    if found.None? {
      return None;
    }
    var i := found.value;
    var payment := db.paymentDetails[i];
    var updated := payment.(fields := ApplyPaymentPatch(payment.fields, paymentData));
    db.paymentDetails := db.paymentDetails[i := updated];
    r := Some(updated);
  }

  /** `deletePayment(id)`: `None` and no change when no row has that id;
      otherwise exactly that row is removed and `{ deleted: true }` returned. */
  method DeletePayment(db: Tables, id: int) returns (r: Option<Confirmation>)
    requires db.Valid()
    modifies db
    ensures db.Valid()
    ensures old(GetPaymentById(db, id)).None? ==> r.None? && db.paymentDetails == old(db.paymentDetails)
    ensures old(GetPaymentById(db, id)).Some? ==>
      && r == Some(Confirmation(true))
      && db.paymentDetails == Filter(old(db.paymentDetails), (p: PaymentDetail) => p.id != id)
      && |db.paymentDetails| == |old(db.paymentDetails)| - 1
    ensures GetPaymentById(db, id).None?
    ensures db.schemePayments == old(db.schemePayments)
    ensures db.nextPaymentId == old(db.nextPaymentId) && db.nextSchemeId == old(db.nextSchemeId)
  {
    var found := IndexWhere(db.paymentDetails, HasId(id));
    if found.None? {
      return None;
    }
    var i := found.value;
    var before := db.paymentDetails;
    CutPayment(before, i, id, db.nextPaymentId);
    db.paymentDetails := before[..i] + before[i + 1..];
    r := Some(Confirmation(true));
  }

  /** Cutting out the row at `i` keeps the ids distinct and in range and
      leaves no row with its id. */
  lemma CutPayment(rows: seq<PaymentDetail>, i: nat, id: int, next: nat)
    requires UniquePaymentIds(rows) && i < |rows| && rows[i].id == id
    requires forall k :: 0 <= k < |rows| ==> 1 <= rows[k].id < next
    ensures var cut := rows[..i] + rows[i + 1..];
      && cut == Filter(rows, (p: PaymentDetail) => p.id != id)
      && |cut| == |rows| - 1
      && UniquePaymentIds(cut)
      && (forall k :: 0 <= k < |cut| ==> 1 <= cut[k].id < next && cut[k].id != id)
  {
    var cut := rows[..i] + rows[i + 1..];
    RemoveOnlyRowWithId(rows, i, id);
    forall k | 0 <= k < |cut| ensures cut[k] == rows[if k < i then k else k + 1] {
    }
  }

  /** With distinct ids, cutting out the row at `i` is filtering out its id. */
  lemma {:induction false} RemoveOnlyRowWithId(rows: seq<PaymentDetail>, i: nat, id: int)
    requires UniquePaymentIds(rows) && i < |rows| && rows[i].id == id
    ensures rows[..i] + rows[i + 1..] == Filter(rows, (p: PaymentDetail) => p.id != id)
  {
    var keep := (p: PaymentDetail) => p.id != id;
    forall j | 0 <= j < |rows| && j != i ensures keep(rows[j]) {
      if j < i {
        assert rows[j].id != rows[i].id;
      } else {
        assert rows[i].id != rows[j].id;
      }
    }
    FilterOutOne(rows, i, keep);
  }

  // ---------------------------------------------------------------------------
  // Purge of a financial year

  /** The `{ deleted: true, paymentCount, schemeCount }` object. */
  datatype YearDeletion = YearDeletion(deleted: bool, paymentCount: nat, schemeCount: nat)

  function PaymentInYear(year: string): PaymentDetail -> bool
  {
    (p: PaymentDetail) => p.fields.financialYear == Some(year)
  }

  function PaymentNotInYear(year: string): PaymentDetail -> bool
  {
    (p: PaymentDetail) => p.fields.financialYear != Some(year)
  }

  function SchemeInYear(year: string): SchemePayment -> bool
  {
    (s: SchemePayment) => s.total.financialYear == year
  }

  function SchemeNotInYear(year: string): SchemePayment -> bool
  {
    (s: SchemePayment) => s.total.financialYear != year
  }

  /** `deletePaymentsByYear(financialYear)`: count the year's rows in both
      tables, then delete them from both. The counts returned are the numbers
      of rows removed; no row of that year remains and the rows of other years
      are kept in order. */
  method DeletePaymentsByYear(db: Tables, financialYear: string) returns (r: YearDeletion)
    requires db.Valid()
    modifies db
    ensures db.Valid()
    ensures r.deleted
    ensures r.paymentCount == Count(old(db.paymentDetails), PaymentInYear(financialYear))
    ensures r.schemeCount == Count(old(db.schemePayments), SchemeInYear(financialYear))
    ensures db.paymentDetails == Filter(old(db.paymentDetails), PaymentNotInYear(financialYear))
    ensures db.schemePayments == Filter(old(db.schemePayments), SchemeNotInYear(financialYear))
    ensures |db.paymentDetails| + r.paymentCount == |old(db.paymentDetails)|
    ensures |db.schemePayments| + r.schemeCount == |old(db.schemePayments)|
    ensures forall i :: 0 <= i < |db.paymentDetails| ==> db.paymentDetails[i].fields.financialYear != Some(financialYear)
    ensures forall i :: 0 <= i < |db.schemePayments| ==> db.schemePayments[i].total.financialYear != financialYear
    ensures db.nextPaymentId == old(db.nextPaymentId) && db.nextSchemeId == old(db.nextSchemeId)
  {
    var paymentCount := Count(db.paymentDetails, PaymentInYear(financialYear));
    var schemeCount := Count(db.schemePayments, SchemeInYear(financialYear));
    PurgePaymentRows(db.paymentDetails, financialYear, db.nextPaymentId);
    PurgeSchemeRows(db.schemePayments, financialYear, db.nextSchemeId);
    db.paymentDetails := Filter(db.paymentDetails, PaymentNotInYear(financialYear));
    db.schemePayments := Filter(db.schemePayments, SchemeNotInYear(financialYear));
    r := YearDeletion(true, paymentCount, schemeCount);
  }

  /** What purging a year does to the payment table: the rows kept plus the
      rows counted are all the rows, ids stay distinct and in range, and no
      kept row has that year. */
  lemma PurgePaymentRows(rows: seq<PaymentDetail>, year: string, next: nat)
    requires UniquePaymentIds(rows)
    requires forall i :: 0 <= i < |rows| ==> 1 <= rows[i].id < next
    ensures var kept := Filter(rows, PaymentNotInYear(year));
      && |kept| + Count(rows, PaymentInYear(year)) == |rows|
      && UniquePaymentIds(kept)
      && (forall i :: 0 <= i < |kept| ==> 1 <= kept[i].id < next && kept[i].fields.financialYear != Some(year))
  {
    FilterSplit(rows, PaymentInYear(year), PaymentNotInYear(year));
    FilterPairwise(rows, PaymentNotInYear(year), (a: PaymentDetail, b: PaymentDetail) => a.id != b.id);
  }

  /** The same for the scheme payments table. */
  lemma PurgeSchemeRows(rows: seq<SchemePayment>, year: string, next: nat)
    requires UniqueSchemeIds(rows)
    requires forall i :: 0 <= i < |rows| ==> 1 <= rows[i].id < next
    ensures var kept := Filter(rows, SchemeNotInYear(year));
      && |kept| + Count(rows, SchemeInYear(year)) == |rows|
      && UniqueSchemeIds(kept)
      && (forall i :: 0 <= i < |kept| ==> 1 <= kept[i].id < next && kept[i].total.financialYear != year)
  {
    FilterSplit(rows, SchemeInYear(year), SchemeNotInYear(year));
    FilterPairwise(rows, SchemeNotInYear(year), (a: SchemePayment, b: SchemePayment) => a.id != b.id);
  }

  /** Keeping the rows that fail `p` leaves `|s| - Count(s, p)` of them. */
  lemma {:induction false} FilterSplit<T>(s: seq<T>, p: T -> bool, notP: T -> bool)
    requires forall i :: 0 <= i < |s| ==> notP(s[i]) == !p(s[i])
    ensures |Filter(s, notP)| + Count(s, p) == |s|
  {
    if s != [] {
      FilterSplit(s[1..], p, notP);
    }
  }

  // ---------------------------------------------------------------------------
  // Bulk upload

  /** The columns the upload reads, by their CSV header names; any other
      column of the file is never read. */
  datatype CsvColumn =
    | PayeeName | PartPostcode | Town | ParliamentaryConstituency | CountyCouncil | Scheme
    | AmountColumn | FinancialYear | PaymentDate | SchemeDetail | ActivityLevel

  function Header(c: CsvColumn): string
  {
    match c
    case PayeeName => "payee_name"
    case PartPostcode => "part_postcode"
    case Town => "town"
    case ParliamentaryConstituency => "parliamentary_constituency"
    case CountyCouncil => "county_council"
    case Scheme => "scheme"
    case AmountColumn => "amount"
    case FinancialYear => "financial_year"
    case PaymentDate => "payment_date"
    case SchemeDetail => "scheme_detail"
    case ActivityLevel => "activity_level"
  }

  /** A data row as the CSV parser yields it, restricted to the columns read:
      a column the file lacks is absent (JavaScript `undefined`). */
  type CsvRow = map<CsvColumn, string>

  function Column(row: CsvRow, name: CsvColumn): Option<string>
  {
    if name in row then Some(row[name]) else None
  }

  /** JavaScript truthiness of a cell: `undefined` and `""` are falsy. */
  predicate IsBlank(cell: Option<string>)
  {
    cell.None? || cell.value == ""
  }

  /** The conversions the row mapping calls, which are not part of this model:
      `Number.parseFloat` (which never throws and yields NaN for text that is
      not a number) and `new Date(text)`, allowed here to fail with a message. */
  datatype Conversions = Conversions(parseFloat: Option<string> -> Amount, toDate: string -> Result<Date, string>)

  /** A mapped row before insertion: its columns and its `published_date`. */
  datatype NewPayment = NewPayment(fields: PaymentFields, publishedDate: Date)

  /** The `{ row, error }` entry recorded for a row whose mapping threw. */
  datatype RowError = RowError(row: nat, error: string)

  /** The `{ success, imported, errors }` object the upload resolves with. */
  datatype UploadReport = UploadReport(success: bool, imported: nat, errors: seq<RowError>)

  /** The row's columns as payment fields (everything but `published_date`):
      cells are copied by column name, the amount goes through `parseFloat`,
      and a blank payment date becomes NULL without any conversion. */
  function MapRowFields(row: CsvRow, conv: Conversions): (r: Result<PaymentFields, string>)
    ensures r.Success? <==> IsBlank(Column(row, PaymentDate)) || conv.toDate(Column(row, PaymentDate).value).Success?
    ensures r.Success? && IsBlank(Column(row, PaymentDate)) ==> r.value.paymentDate == None
  {
    var date := Column(row, PaymentDate);
    var paymentDate: Result<Option<Date>, string> :=
      if IsBlank(date) then Success(None)
      else match conv.toDate(date.value)
        case Success(d) => Success(Some(d))
        case Failure(e) => Failure(e);
    match paymentDate
    case Failure(e) => Failure(e)
    case Success(d) => Success(PaymentFields(
      Column(row, PayeeName),
      Column(row, PartPostcode),
      Column(row, Town),
      Column(row, ParliamentaryConstituency),
      Column(row, CountyCouncil),
      Column(row, Scheme),
      conv.parseFloat(Column(row, AmountColumn)),
      Column(row, FinancialYear),
      d,
      Column(row, SchemeDetail),
      Column(row, ActivityLevel)))
  }

  /** The cell a record would be written with in column `c`; NULL columns
      are left out of the row. */
  function Cell(f: PaymentFields, c: CsvColumn, showAmount: Amount -> string, showDate: Date -> string): Option<string>
  {
    match c
    case PayeeName => f.payeeName
    case PartPostcode => f.partPostcode
    case Town => f.town
    case ParliamentaryConstituency => f.parliamentaryConstituency
    case CountyCouncil => f.countyCouncil
    case Scheme => f.scheme
    case AmountColumn => Some(showAmount(f.amount))
    case FinancialYear => f.financialYear
    case PaymentDate => if f.paymentDate.Some? then Some(showDate(f.paymentDate.value)) else None
    case SchemeDetail => f.schemeDetail
    case ActivityLevel => f.activityLevel
  }

  /** The CSV row a record would be written as, with `showAmount` and
      `showDate` producing the cell text. */
  function RowOf(f: PaymentFields, showAmount: Amount -> string, showDate: Date -> string): (row: CsvRow)
    ensures forall c :: Column(row, c) == Cell(f, c, showAmount, showDate)
  {
    map c: CsvColumn | Cell(f, c, showAmount, showDate).Some? :: Cell(f, c, showAmount, showDate).value
  }

  /** Uploading the row a record would be written as gives back that record,
      whenever the conversions read back what `showAmount` and `showDate` write
      and a written date is never blank. */
  lemma UploadRoundTrip(f: PaymentFields, conv: Conversions, showAmount: Amount -> string, showDate: Date -> string)
    requires forall a :: conv.parseFloat(Some(showAmount(a))) == a
    requires forall d :: showDate(d) != ""
    requires forall d :: conv.toDate(showDate(d)) == Success(d)
    ensures MapRowFields(RowOf(f, showAmount, showDate), conv) == Success(f)
  {
    var row := RowOf(f, showAmount, showDate);
    RowColumns(f, showAmount, showDate);
    assert conv.parseFloat(Some(showAmount(f.amount))) == f.amount;
    if f.paymentDate.Some? {
      var d := f.paymentDate.value;
      assert showDate(d) != "" && conv.toDate(showDate(d)) == Success(d);
    }
    MapsBack(row, f, conv, showDate);
  }

  /** The cells of the row a record is written as. */
  lemma RowColumns(f: PaymentFields, showAmount: Amount -> string, showDate: Date -> string)
    ensures var row := RowOf(f, showAmount, showDate);
      && Column(row, AmountColumn) == Some(showAmount(f.amount))
      && Column(row, PaymentDate) == (if f.paymentDate.Some? then Some(showDate(f.paymentDate.value)) else None)
      && Column(row, PayeeName) == f.payeeName
      && Column(row, PartPostcode) == f.partPostcode
      && Column(row, Town) == f.town
      && Column(row, ParliamentaryConstituency) == f.parliamentaryConstituency
      && Column(row, CountyCouncil) == f.countyCouncil
      && Column(row, Scheme) == f.scheme
      && Column(row, FinancialYear) == f.financialYear
      && Column(row, SchemeDetail) == f.schemeDetail
      && Column(row, ActivityLevel) == f.activityLevel
  {
    var row := RowOf(f, showAmount, showDate);
    assert Column(row, AmountColumn) == Cell(f, AmountColumn, showAmount, showDate);
    assert Column(row, PaymentDate) == Cell(f, PaymentDate, showAmount, showDate);
    assert Column(row, PayeeName) == Cell(f, PayeeName, showAmount, showDate);
    assert Column(row, PartPostcode) == Cell(f, PartPostcode, showAmount, showDate);
    assert Column(row, Town) == Cell(f, Town, showAmount, showDate);
    assert Column(row, ParliamentaryConstituency) == Cell(f, ParliamentaryConstituency, showAmount, showDate);
    assert Column(row, CountyCouncil) == Cell(f, CountyCouncil, showAmount, showDate);
    assert Column(row, Scheme) == Cell(f, Scheme, showAmount, showDate);
    assert Column(row, FinancialYear) == Cell(f, FinancialYear, showAmount, showDate);
    assert Column(row, SchemeDetail) == Cell(f, SchemeDetail, showAmount, showDate);
    assert Column(row, ActivityLevel) == Cell(f, ActivityLevel, showAmount, showDate);
  }

  /** A row whose cells are those of `f`, with an amount and a date that
      convert back, maps to `f`. */
  lemma MapsBack(row: CsvRow, f: PaymentFields, conv: Conversions, showDate: Date -> string)
    requires conv.parseFloat(Column(row, AmountColumn)) == f.amount
    requires Column(row, PaymentDate) == if f.paymentDate.Some? then Some(showDate(f.paymentDate.value)) else None
    requires f.paymentDate.Some? ==>
      showDate(f.paymentDate.value) != "" && conv.toDate(showDate(f.paymentDate.value)) == Success(f.paymentDate.value)
    requires Column(row, PayeeName) == f.payeeName
    requires Column(row, PartPostcode) == f.partPostcode
    requires Column(row, Town) == f.town
    requires Column(row, ParliamentaryConstituency) == f.parliamentaryConstituency
    requires Column(row, CountyCouncil) == f.countyCouncil
    requires Column(row, Scheme) == f.scheme
    requires Column(row, FinancialYear) == f.financialYear
    requires Column(row, SchemeDetail) == f.schemeDetail
    requires Column(row, ActivityLevel) == f.activityLevel
    ensures MapRowFields(row, conv) == Success(f)
  {
  }

  /** A non-numeric amount does not make the row fail: whatever `parseFloat`
      returns, NaN included, is stored and the row is still mapped. */
  lemma NotANumberIsStillMapped(row: CsvRow, conv: Conversions)
    requires conv.parseFloat(Column(row, AmountColumn)) == NotANumber
    requires IsBlank(Column(row, PaymentDate))
    ensures MapRowFields(row, conv).Success?
    ensures MapRowFields(row, conv).value.amount == NotANumber
  {
  }

  /** What the `data` handler has accumulated after some rows. */
  datatype Ingested = Ingested(payments: seq<NewPayment>, errors: seq<RowError>)

  /** The row mapping as the `data` handler applies it. */
  function RowMapper(conv: Conversions): CsvRow -> Result<PaymentFields, string>
  {
    (row: CsvRow) => MapRowFields(row, conv)
  }

  /** The `data` handler run over `rows` in order: each row either adds a
      payment stamped with the next clock reading or, if its mapping threw, an
      error entry carrying its 1-based row number. The clock is read (line 135)
      only for rows whose mapping got that far. `mapRow` is the row mapping,
      `RowMapper(conv)` in the upload. */
  function Ingest(rows: seq<CsvRow>, clock: seq<Date>, mapRow: CsvRow -> Result<PaymentFields, string>): (st: Ingested)
    requires |rows| <= |clock|
    ensures |st.payments| + |st.errors| == |rows|
    decreases |rows|
  {
    if rows == [] then Ingested([], [])
    else
      var prev := Ingest(rows[..|rows| - 1], clock, mapRow);
      match mapRow(rows[|rows| - 1])
      case Success(f) => Ingested(prev.payments + [NewPayment(f, clock[|prev.payments|])], prev.errors)
      case Failure(msg) => Ingested(prev.payments, prev.errors + [RowError(|rows|, msg)])
  }

  /** Lines 113-141: the row loop, with its `payments` and `errors` arrays
      and its `rowNumber` counter. */
  method MapCsvRows(rows: seq<CsvRow>, clock: seq<Date>, conv: Conversions)
    returns (payments: seq<NewPayment>, errors: seq<RowError>)
    requires |rows| <= |clock|
    ensures Ingested(payments, errors) == Ingest(rows, clock, RowMapper(conv))
  {
    payments, errors := [], [];
    var rowNumber := 0;
    while rowNumber < |rows|
      invariant 0 <= rowNumber <= |rows|
      invariant Ingested(payments, errors) == Ingest(rows[..rowNumber], clock, RowMapper(conv))
    {
      var row := rows[rowNumber];
      rowNumber := rowNumber + 1;
      assert rows[..rowNumber][..rowNumber - 1] == rows[..rowNumber - 1];
      assert rows[..rowNumber][rowNumber - 1] == row;
      match MapRowFields(row, conv)
      case Success(f) =>
        payments := payments + [NewPayment(f, clock[|payments|])];
      case Failure(msg) =>
        errors := errors + [RowError(rowNumber, msg)];
    }
    assert rows[..|rows|] == rows;
  }

  /** The accounting of a whole upload: the k-th payment carries the k-th clock
      reading, every error names a row (1-based, increasing) whose mapping
      failed with that message, and rows are either imported or reported. */
  lemma {:induction false} IngestAccounting(rows: seq<CsvRow>, clock: seq<Date>, mapRow: CsvRow -> Result<PaymentFields, string>)
    requires |rows| <= |clock|
    ensures var st := Ingest(rows, clock, mapRow);
      && |st.payments| == Count(rows, (row: CsvRow) => mapRow(row).Success?)
      && (forall k :: 0 <= k < |st.payments| ==> st.payments[k].publishedDate == clock[k])
      && (forall k :: 0 <= k < |st.errors| ==>
            && 1 <= st.errors[k].row <= |rows|
            && mapRow(rows[st.errors[k].row - 1]) == Failure(st.errors[k].error))
      && (forall k, m :: 0 <= k < m < |st.errors| ==> st.errors[k].row < st.errors[m].row)
    decreases |rows|
  {
    IngestCount(rows, clock, mapRow);
    IngestClock(rows, clock, mapRow);
    IngestErrors(rows, clock, mapRow);
  }

  lemma {:induction false} IngestCount(rows: seq<CsvRow>, clock: seq<Date>, mapRow: CsvRow -> Result<PaymentFields, string>)
    requires |rows| <= |clock|
    ensures |Ingest(rows, clock, mapRow).payments| == Count(rows, (row: CsvRow) => mapRow(row).Success?)
    decreases |rows|
  {
    if rows != [] {
      var init := rows[..|rows| - 1];
      IngestCount(init, clock, mapRow);
      LastSplit(rows);
      CountAppend(init, [rows[|rows| - 1]], (row: CsvRow) => mapRow(row).Success?);
    }
  }

  lemma {:induction false} IngestClock(rows: seq<CsvRow>, clock: seq<Date>, mapRow: CsvRow -> Result<PaymentFields, string>)
    requires |rows| <= |clock|
    ensures var st := Ingest(rows, clock, mapRow);
      forall k :: 0 <= k < |st.payments| ==> st.payments[k].publishedDate == clock[k]
    decreases |rows|
  {
    if rows != [] {
      IngestClock(rows[..|rows| - 1], clock, mapRow);
    }
  }

  lemma {:induction false} IngestErrors(rows: seq<CsvRow>, clock: seq<Date>, mapRow: CsvRow -> Result<PaymentFields, string>)
    requires |rows| <= |clock|
    ensures ErrorsAccounted(rows, mapRow, Ingest(rows, clock, mapRow).errors)
    decreases |rows|
  {
    if rows != [] {
      var init := rows[..|rows| - 1];
      IngestErrors(init, clock, mapRow);
      IngestErrorsStep(rows, clock, mapRow, Ingest(init, clock, mapRow).errors);
    }
  }

  /** One more row keeps the error entries accounted for. */
  lemma IngestErrorsStep(rows: seq<CsvRow>, clock: seq<Date>, mapRow: CsvRow -> Result<PaymentFields, string>, prev: seq<RowError>)
    requires rows != [] && |rows| <= |clock|
    requires prev == Ingest(rows[..|rows| - 1], clock, mapRow).errors
    requires ErrorsAccounted(rows[..|rows| - 1], mapRow, prev)
    ensures ErrorsAccounted(rows, mapRow, Ingest(rows, clock, mapRow).errors)
  {
    ErrorsKept(rows, mapRow, prev);
    match mapRow(rows[|rows| - 1])
    case Success(_) =>
      assert Ingest(rows, clock, mapRow).errors == prev;
    case Failure(msg) =>
      assert Ingest(rows, clock, mapRow).errors == prev + [RowError(|rows|, msg)];
      ErrorsExtended(rows, mapRow, prev, msg);
  }

  /** Every error names a row, 1-based, whose mapping failed with that
      message, and error rows strictly increase. */
  ghost predicate ErrorsAccounted(rows: seq<CsvRow>, mapRow: CsvRow -> Result<PaymentFields, string>, errors: seq<RowError>)
  {
    && (forall k :: 0 <= k < |errors| ==> 1 <= errors[k].row <= |rows|)
    && (forall k :: 0 <= k < |errors| ==> 1 <= errors[k].row <= |rows| && mapRow(rows[errors[k].row - 1]) == Failure(errors[k].error))
    && (forall k, m :: 0 <= k < m < |errors| ==> errors[k].row < errors[m].row)
  }

  lemma ErrorsKept(rows: seq<CsvRow>, mapRow: CsvRow -> Result<PaymentFields, string>, errors: seq<RowError>)
    requires rows != [] && ErrorsAccounted(rows[..|rows| - 1], mapRow, errors)
    ensures ErrorsAccounted(rows, mapRow, errors)
  {
    var init := rows[..|rows| - 1];
    forall k | 0 <= k < |errors| ensures rows[errors[k].row - 1] == init[errors[k].row - 1] {
    }
  }

  lemma ErrorsExtended(rows: seq<CsvRow>, mapRow: CsvRow -> Result<PaymentFields, string>, errors: seq<RowError>, msg: string)
    requires rows != [] && ErrorsAccounted(rows[..|rows| - 1], mapRow, errors)
    requires mapRow(rows[|rows| - 1]) == Failure(msg)
    ensures ErrorsAccounted(rows, mapRow, errors + [RowError(|rows|, msg)])
  {
    ErrorsKept(rows, mapRow, errors);
  }

  /** When no row fails to map, nothing is reported and the k-th payment is
      the k-th row's fields. */
  lemma {:induction false} IngestWithoutErrors(rows: seq<CsvRow>, clock: seq<Date>, mapRow: CsvRow -> Result<PaymentFields, string>)
    requires |rows| <= |clock|
    requires forall k :: 0 <= k < |rows| ==> mapRow(rows[k]).Success?
    ensures var st := Ingest(rows, clock, mapRow);
      && st.errors == [] && |st.payments| == |rows|
      && forall k :: 0 <= k < |rows| ==> st.payments[k] == NewPayment(mapRow(rows[k]).value, clock[k])
    decreases |rows|
  {
    if rows != [] {
      IngestWithoutErrors(rows[..|rows| - 1], clock, mapRow);
    }
  }

  /** Rows inserted by `bulkCreate`: the payments in their order, unchanged,
      each given the next id of the sequence starting at `first`. This is the
      specification the upload is stated against; `AppendNumbered` shows that
      such rows keep the table's key invariant. */
  function Numbered(payments: seq<NewPayment>, first: nat): (r: seq<PaymentDetail>)
    ensures |r| == |payments|
    ensures forall k :: 0 <= k < |r| ==>
      r[k] == PaymentDetail(first + k, payments[k].fields, payments[k].publishedDate)
  {
    seq(|payments|, k requires 0 <= k < |payments| => PaymentDetail(first + k, payments[k].fields, payments[k].publishedDate))
  }

  /** Rows numbered from the id counter can be appended to a valid table:
      the ids stay distinct and below the advanced counter. */
  lemma AppendNumbered(before: seq<PaymentDetail>, payments: seq<NewPayment>, next: nat)
    requires UniquePaymentIds(before)
    requires forall i :: 0 <= i < |before| ==> 1 <= before[i].id < next
    requires 1 <= next
    ensures var after := before + Numbered(payments, next);
      && UniquePaymentIds(after)
      && (forall i :: 0 <= i < |after| ==> 1 <= after[i].id < next + |payments|)
  {
    var inserted := Numbered(payments, next);
    var after := before + inserted;
    forall i | 0 <= i < |after|
      ensures after[i] == if i < |before| then before[i] else inserted[i - |before|]
    {
    }
  }

  const ValidationFailed := "Validation error"

  /** `bulkUploadPayments(csvStream)` over the parsed rows, one clock reading
      available per row and the model validators `valid`. The rows are mapped
      one by one; if at least one was mapped, a single bulk insert with
      validation follows, which rejects the whole call when any record fails
      validation. Otherwise the call resolves with `success`, the number of
      rows imported and the per-row errors. */
  method BulkUploadPayments(db: Tables, rows: seq<CsvRow>, clock: seq<Date>, conv: Conversions, valid: PaymentFields -> bool)
    returns (r: Result<UploadReport, string>)
    requires db.Valid() && |rows| <= |clock|
    modifies db
    ensures db.Valid()
    ensures var st := Ingest(rows, clock, RowMapper(conv));
      && (r.Success? <==> st.payments == [] || forall k :: 0 <= k < |st.payments| ==> valid(st.payments[k].fields))
      && (r.Success? ==> r.value == UploadReport(true, |st.payments|, st.errors))
      && (r.Success? ==> db.paymentDetails == old(db.paymentDetails) + Numbered(st.payments, old(db.nextPaymentId)))
      && (r.Failure? ==> r.error == ValidationFailed && db.paymentDetails == old(db.paymentDetails))
      && db.nextPaymentId == old(db.nextPaymentId) + (if r.Success? then |st.payments| else 0)
    ensures db.schemePayments == old(db.schemePayments)
    ensures db.nextSchemeId == old(db.nextSchemeId)
  {
    var payments, errors := MapCsvRows(rows, clock, conv);
    if |payments| > 0 {
      if !forall k | 0 <= k < |payments| :: valid(payments[k].fields) {
        return Failure(ValidationFailed);
      }
      var inserted := Numbered(payments, db.nextPaymentId);
      AppendNumbered(db.paymentDetails, payments, db.nextPaymentId);
      db.paymentDetails := db.paymentDetails + inserted;
      db.nextPaymentId := db.nextPaymentId + |payments|;
    }
    r := Success(UploadReport(true, |payments|, errors));
  }
}
