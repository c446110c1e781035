# Making Payment Data Public backend: data layer model

This project models the data layer of the DEFRA "Making Payment Data Public"
backend (fcp-mpdp-backend), a service that publishes and administers farm
payment records. Five source modules are modelled:

- `src/data/payments-admin.js`: the admin operations on the payment detail
  table. These are point lookup, create, update, delete, purge of a financial
  year from both tables, the list of financial years, paginated listing,
  payee-name search with `ILIKE '%…%'`, and bulk upload of parsed CSV rows.
- `src/data/summary.js`: the public summary of per-(year, scheme) totals.
  The totals are sorted by financial year, then grouped into an object keyed
  by year or exported as CSV with a quoted header.
- `src/data/payments-summary-admin.js` and `src/data/payment-summary.js`:
  listing, lookup, create, update and delete on the scheme payments table.
  The two files behave the same, so module `PaymentsSummaryAdmin` models both.
- `src/common/helpers/secure-context/get-trust-store-certs.js`: selects the
  certificates from the `TRUSTSTORE_*` environment variables.

The database is a `Database.Tables` object. It has one `seq` field per table
and one auto-increment counter per table. `Tables.Valid()` states the primary
key invariant: ids are positive, below the next id, and distinct. Every
method that changes a table is proved to preserve it. Each SQL query becomes
a function of the table contents. `ORDER BY` becomes a stable insertion sort
under the query's comparator. `COUNT … WHERE` becomes `Seqs.Count`.
`ILIKE` becomes a recursive pattern matcher.

Amounts in the summary are whole pence. They are rendered the way a
JavaScript number of pounds prints: 20000 prints as `200` and 20050 prints
as `200.5`.

Helper modules:

- `Wrappers`: `Option` and `Result`.
- `Seqs`: filter, count, map and distinct.
- `Text`: ASCII case folding, JavaScript `trim` and code-point string order.
- `SqlLike`: `LIKE` and `ILIKE`.
- `Sorting`: insertion sort, with proofs that it sorts, permutes and is
  stable.
- `Paging`: limit, offset and `Math.ceil(count / limit)`.
- `Csv`: RFC 4180 quoting and the amount format, with round-trip proofs.
- `Records`: the row types and the update patches.

## Model

| member | source | states |
|---|---|---|
| PaymentsAdmin.GetPaymentById | src/data/payments-admin.js:4-6 | The lookup returns a row with the given id when one exists, and `None` exactly when no row has that id |
| PaymentsAdmin.CreatePayment | src/data/payments-admin.js:8-13 | The new row has the supplied columns, `published_date` set to the clock reading and the id the payment counter issues; the table grows by exactly that row and the lookup finds it; only the payment counter advances, by one; the key invariant is kept |
| PaymentsAdmin.UpdatePayment | src/data/payments-admin.js:15-22 | A missing id returns null and changes nothing; otherwise only that row changes, the supplied columns overwrite its old ones, and the updated row is returned; the other table and both id counters are untouched |
| PaymentsAdmin.DeletePayment | src/data/payments-admin.js:24-31 | A missing id returns null and changes nothing; otherwise exactly that row is removed and `{deleted: true}` is returned; afterwards no row has the id; the other table and both id counters are untouched |
| PaymentsAdmin.CutPayment | src/data/payments-admin.js:29 | Destroying the found row equals filtering out its id; the table shrinks by one, keeps distinct in-range ids and holds no row with that id |
| PaymentsAdmin.DeletePaymentsByYear | src/data/payments-admin.js:33-55 | The returned counts are the numbers of that year's rows in each table before the delete; both tables then hold exactly the other years' rows in their old order, so each table shrinks by its count; the id counters are untouched |
| PaymentsAdmin.PurgePaymentRows | src/data/payments-admin.js:34-44 | The payment rows kept plus the counted rows of the year are all the rows; kept ids stay distinct and in range, and no kept row has that year |
| PaymentsAdmin.PurgeSchemeRows | src/data/payments-admin.js:38-48 | The same for the scheme payments table |
| PaymentsAdmin.GetFinancialYears | src/data/payments-admin.js:57-65 | Every non-empty year present in the table appears exactly once, in strictly descending order; nothing else appears, and NULL and empty years are dropped |
| PaymentsAdmin.FinancialYearsFacts | src/data/payments-admin.js:58-64 | Grouping by year, sorting descending and dropping falsy values gives a strictly descending list that holds exactly the non-empty years of the rows |
| PaymentsAdmin.TruthyStrictlyDescending | src/data/payments-admin.js:62-64 | After `filter(Boolean)`, a descending list of distinct years is strictly descending |
| PaymentsAdmin.Truthy | src/data/payments-admin.js:64 | `filter(Boolean)` keeps exactly the non-NULL, non-empty years |
| PaymentsAdmin.FinancialYearsExample | src/data/payments-admin.js:64 | NULL and empty years are dropped from the query result and the order is kept |
| PaymentsAdmin.YearDescendingIsTotalPreorder | src/data/payments-admin.js:62 | `ORDER BY financial_year DESC` with NULLs first is a total preorder |
| PaymentsAdmin.NewerFirstIsTotalPreorder | src/data/payments-admin.js:73 | `ORDER BY id DESC` is a total preorder |
| PaymentsAdmin.NewestFirst | src/data/payments-admin.js:73 | Ordering by id DESC is a permutation of the rows with strictly descending ids |
| PaymentsAdmin.PermutationKeepsUniqueIds | src/data/payments-admin.js:73 | Reordering the rows keeps their ids distinct |
| PaymentsAdmin.ListPage | src/data/payments-admin.js:68-82 | `count` is the number of rows and `totalPages` is the ceiling of count/limit; the page holds exactly `min(limit, count - offset)` rows (none once the offset reaches the count), and they are the id-descending rows starting at `(page-1)*limit` |
| PaymentsAdmin.GetAllPaymentsForAdmin | src/data/payments-admin.js:67-83 | With defaults page 1 and limit 20, the whole table is paged as above, so the page holds exactly `min(limit, count - offset)` rows |
| PaymentsAdmin.SearchPaymentsForAdmin | src/data/payments-admin.js:85-110 | An empty search string gives the unfiltered listing; otherwise the result is the listing above applied to the rows whose payee name matches `%s%` case-insensitively: `count` is their number, and the page is exactly `min(limit, count - offset)` of them, id-descending from the offset |
| PaymentsAdmin.MatchesKeepUniqueIds | src/data/payments-admin.js:86-100 | The rows found by the search are as many as the WHERE clause counts and keep distinct ids |
| PaymentsAdmin.SearchIsCaseInsensitiveSubstring | src/data/payments-admin.js:88-94 | For a search string without `%` or `_`, a row matches exactly when its payee name contains the string, ignoring ASCII case; a NULL name never matches |
| PaymentsAdmin.MapRowFields | src/data/payments-admin.js:123-136 | Mapping a row fails exactly when the payment date is non-blank and its conversion fails; a blank date gives NULL |
| PaymentsAdmin.RowOf | src/data/payments-admin.js:123-134 | Writes a payment's columns as a CSV row under their header names, each cell at its own column |
| PaymentsAdmin.UploadRoundTrip | src/data/payments-admin.js:123-134 | With `parseFloat` and the date conversion inverse to the printers, mapping a written row gives back the original fields |
| PaymentsAdmin.NotANumberIsStillMapped | src/data/payments-admin.js:130 | An amount that does not parse becomes NaN and the row is still accepted |
| PaymentsAdmin.Ingest | src/data/payments-admin.js:120-141 | Whatever the row mapping, every row ends up either as a payment or as an error, never both |
| PaymentsAdmin.MapCsvRows | src/data/payments-admin.js:113-141 | The row loop with its `rowNumber` counter gives the payments and errors of the reference definition `Ingest`, applied with the upload's row mapping |
| PaymentsAdmin.IngestAccounting | src/data/payments-admin.js:120-141 | The number of payments is the number of rows that map; the k-th payment carries the k-th clock reading; each error names a failing row, 1-based, with its message; error row numbers strictly increase |
| PaymentsAdmin.IngestWithoutErrors | src/data/payments-admin.js:120-141 | When every row maps, there are no errors and the k-th payment is the k-th row's fields with the k-th clock reading |
| PaymentsAdmin.Numbered | src/data/payments-admin.js:145 | `bulkCreate` gives consecutive ids from the next id, keeping the row order and the row contents |
| PaymentsAdmin.AppendNumbered | src/data/payments-admin.js:145 | Rows numbered from the id counter can be appended to a valid table: all ids stay distinct, positive and below the advanced counter |
| PaymentsAdmin.BulkUploadPayments | src/data/payments-admin.js:112-160 | The call resolves exactly when no payment was mapped or every mapped payment passes validation; it then resolves with `success`, the number imported and the row errors, and the table gains exactly the mapped payments, numbered from the payment counter, which advances by their number; otherwise the table and the counter are unchanged; the scheme table is never touched |
| Paging.CeilDiv | src/data/payments-admin.js:81 | `Math.ceil(n / d)` is the least number of pages of size d that covers n rows |
| Paging.Paginate | src/data/payments-admin.js:68-82 | A page holds `min(limit, count - offset)` rows, which are the ordered rows from the offset on |
| Paging.FirstPagesArePrefix | src/data/payments-admin.js:68-75 | The first k pages, laid end to end, are the first `k*limit` rows |
| Paging.AllPagesCoverTheRows | src/data/payments-admin.js:81 | Pages 1 to `totalPages`, laid end to end, hold every row exactly once |
| Paging.PageAfterLastIsEmpty | src/data/payments-admin.js:68-81 | A page past `totalPages` is empty |
| Paging.FiftyRowsTwentyPerPage | src/data/payments-admin.js:67-83 | With 50 rows and a limit of 20, there are 3 pages and page 2 holds rows 20 to 39 |
| SqlLike.PercentMatchesAll | src/data/payments-admin.js:91 | `%` matches every string |
| SqlLike.LiteralPrefixMatch | src/data/payments-admin.js:91 | `q%` matches exactly the strings that start with q, for q without wildcards |
| SqlLike.LeadingPercentMatch | src/data/payments-admin.js:91 | `%r` matches exactly when some suffix matches r |
| SqlLike.ContainsPatternIsSubstring | src/data/payments-admin.js:91 | `%s%` matches exactly the strings that contain s, for s without wildcards |
| SqlLike.ILikeIsCaseInsensitiveSubstring | src/data/payments-admin.js:91 | `ILIKE '%s%'` holds exactly when the lower-cased name contains the lower-cased s |
| SqlLike.UnderscoreIsAWildcard | src/data/payments-admin.js:91 | A `_` typed in the search acts as a one-character wildcard: `j_hn` finds "John", which does not contain "j_hn" |
| SqlLike.OneLetterThenHn | src/data/payments-admin.js:91 | `%j_hn%` matches j, any one character, then hn |
| Summary.YearLeIsTotalPreorder | src/data/summary.js:27-29 | The `localeCompare` comparator on financial years is a total preorder |
| Summary.SortByFinancialYear | src/data/summary.js:26-30 | The result is a permutation of the input in ascending year order; it is stable, so each year's rows keep their input order |
| Summary.SortByFinancialYearFacts | src/data/summary.js:26-30 | The insertion sort under the year comparator is sorted and keeps each year's rows in input order |
| Summary.SameYearIsEquivalent | src/data/summary.js:28 | Under the comparator, the rows equivalent to a row of year y are exactly the rows of year y |
| Summary.GroupPaymentsByYear | src/data/summary.js:32-40 | The object's keys are the years in first-seen order, each once; under each year is the list of that year's rows in input order; no other key exists |
| Summary.GroupLoopStep | src/data/summary.js:33-39 | Each turn of the `reduce` keeps the grouping invariant, and it adds a key exactly when the year is new |
| Summary.GroupedByStep | src/data/summary.js:34-38 | Pushing an item onto its year's array (created if absent) keeps each year's array equal to that year's rows |
| Summary.YearSeen | src/data/summary.js:34 | A year is already a key exactly when some earlier row has that year |
| Summary.GroupsReassemble | src/data/summary.js:32-40 | For year-sorted input, the groups laid end to end in key order give back the input, so grouping loses and reorders nothing |
| Summary.DistinctAscending | src/data/summary.js:6-7 | When the input is year-sorted, the grouped keys come out strictly ascending |
| Summary.LastOfDistinct | src/data/summary.js:6-7 | When the input is year-sorted, the last key is the last row's year |
| Summary.GetPaymentSummary | src/data/summary.js:4-8 | The keys are strictly ascending years and are exactly the keys of the object; each year present maps to exactly its rows, in input order; no other key exists |
| Summary.SortedGroups | src/data/summary.js:6-7 | Sorting before grouping does not change any year's rows |
| Summary.SortedKeys | src/data/summary.js:6-7 | The keys of the sorted totals are strictly ascending |
| Summary.KeysAreGroups | src/data/summary.js:32-40 | The recorded key order lists exactly the keys of the object |
| Summary.ExampleYears | test/unit/data/summary.test.js:11-15 | "20/21" sorts before "21/22" |
| Summary.ExampleSorted | test/unit/data/summary.test.js:11-15 | Rows of years 21/22, 20/21, 21/22 sort to 20/21, then the two 21/22 rows in their input order |
| Summary.SummaryExample | test/unit/data/summary.test.js:24-35 | The test data gives keys 20/21 then 21/22; 20/21 holds its one row and 21/22 holds its two rows in input order |
| Summary.SummaryLines | src/data/summary.js:10-24 | The export has the header line, then one line per total, in year order; each line reads back as exactly its total |
| Summary.RenderRows | src/data/summary.js:22-23 | One line per row, and each line reads back as its row |
| Summary.GetPaymentSummaryCsv | src/data/summary.js:10-24 | The CSV text starts with the quoted header `"financial_year","scheme","amount"` and is exactly the summary lines, one after the other with a newline between; line i+1 of the text reads back as the i-th total in year order |
| Summary.CsvRowsInYearOrder | src/data/summary.js:19-23 | In the text, the line of an earlier total ends before the line of a later total starts, and the earlier total's year is not after the later one's |
| Csv.EscapeQuotesWithoutQuotes | src/data/summary.js:22-23 | A value without double quotes is not changed by escaping |
| Csv.EscapeQuotesAppend | src/data/summary.js:22-23 | Escaping distributes over concatenation |
| Csv.ReadQuotedEscaped | src/data/summary.js:22-23 | Reading a quoted field gives back the escaped value and the rest of the line |
| Csv.QuoteRoundTrip | src/data/summary.js:22-23 | Quoting then reading a field is the identity, whatever commas or quotes the value holds |
| Csv.NumeralRoundTrip | src/data/summary.js:22-23 | Decimal digits read back as the number printed |
| Csv.DigitRoundTrip | src/data/summary.js:22-23 | Each digit character reads back as its value |
| Csv.UnsignedRoundTrip | src/data/summary.js:22-23 | A non-negative amount in pence, printed in pounds, reads back as itself |
| Csv.AmountRoundTrip | src/data/summary.js:22-23 | Every amount, negative ones included, reads back as itself |
| Csv.RowRoundTrip | src/data/summary.js:11-23 | A row `"year","scheme",amount` reads back as the total it was printed from |
| Csv.RowWithoutQuotes | src/data/summary.js:22-23 | When year and scheme hold no double quotes, a row is each of them between quotes, then the bare amount, separated by commas |
| Csv.JoinLines | src/data/summary.js:22-23 | The joined text is the lines one after the other: each line sits at the sum of the lengths of the earlier lines plus one newline each, a newline follows every line but the last, and nothing else is in the text |
| Csv.LinesInOrder | src/data/summary.js:22-23 | In the joined text, each line ends before any later line starts |
| Csv.HeaderExample | test/unit/data/summary.test.js:39-42 | The header is `"financial_year","scheme","amount"` |
| Csv.PlainHeaderOfThree | src/data/summary.js:11-21 | Three labels without double quotes make a header of those labels, each between quotes, separated by commas |
| Csv.AmountExamples | test/unit/data/summary.test.js:44-49 | Amounts print as `200` and `100`; fractions keep only significant digits, and negatives take a minus sign |
| Csv.CommaExample | test/unit/data/summary.test.js:56-62 | A scheme name with a comma is quoted whole |
| Csv.EscapeQuotedWord | test/unit/data/summary.test.js:64-70 | Each embedded double quote is doubled |
| Csv.QuotesExample | test/unit/data/summary.test.js:64-70 | `scheme "with" quotes` is exported as `"scheme ""with"" quotes"` |
| PaymentsSummaryAdmin.ReportOrderIsTotalPreorder | src/data/payments-summary-admin.js:5 | `ORDER BY financial_year DESC, scheme ASC` is a total preorder |
| PaymentsSummaryAdmin.ReportOrderTransitive | src/data/payments-summary-admin.js:5 | The two-key order is transitive |
| PaymentsSummaryAdmin.GetAllPaymentSummaries | src/data/payments-summary-admin.js:3-7 | The listing is a permutation of the table; a row's year is never later than an earlier row's year, and within one year the schemes ascend; `src/data/payment-summary.js`:3-7 has the same code |
| PaymentsSummaryAdmin.GetPaymentSummaryById | src/data/payments-summary-admin.js:9-11 | The lookup returns a row with the given id, and `None` exactly when no row has it; `src/data/payment-summary.js`:9-11 has the same code |
| PaymentsSummaryAdmin.LookupFindsRow | src/data/payments-summary-admin.js:9-11 | With distinct ids, looking up a row's id returns that row |
| PaymentsSummaryAdmin.CreatePaymentSummary | src/data/payments-summary-admin.js:13-15 | The new row has the supplied columns and the id the scheme counter issues; the table grows by exactly that row and the lookup finds it; the other table and the payment counter are untouched; `src/data/payment-summary.js`:13-15 has the same code |
| PaymentsSummaryAdmin.UpdatePaymentSummary | src/data/payments-summary-admin.js:17-23 | A missing id returns null and changes nothing; otherwise only that row changes, the supplied columns overwrite its old ones, and the updated row is returned and found by the lookup; the other table and both id counters are untouched; `src/data/payment-summary.js`:17-23 has the same code |
| PaymentsSummaryAdmin.DeletePaymentSummary | src/data/payments-summary-admin.js:25-32 | A missing id returns null and changes nothing; otherwise exactly that row is removed and `{deleted: true}` is returned; afterwards no row has the id; the other table and both id counters are untouched; `src/data/payment-summary.js`:25-32 has the same code |
| PaymentsSummaryAdmin.CutRow | src/data/payments-summary-admin.js:30 | Destroying one row keeps the ids distinct and in range, and leaves no row with that id |
| PaymentsSummaryAdmin.RemoveOnlyRowWithId | src/data/payments-summary-admin.js:30 | With distinct ids, destroying the row equals filtering out its id |
| PaymentsSummaryAdmin.SchemePatchLaws | src/data/payments-summary-admin.js:22 | An empty update body changes nothing; applying an update twice is the same as applying it once; only a supplied amount changes the amount |
| PaymentsAdmin.RemoveOnlyRowWithId | src/data/payments-admin.js:29 | With distinct ids, destroying the row equals filtering out its id |
| Records.PaymentPatchLaws | src/data/payments-admin.js:20 | An empty update changes nothing; applying an update twice is the same as applying it once; two updates in a row equal their merge |
| TrustStore.GetTrustStoreCerts | src/common/helpers/secure-context/get-trust-store-certs.js:2-7 | One certificate per variable whose name starts with `TRUSTSTORE_` and whose value is non-empty, so never more than there are variables; each certificate has no white space at either end |
| TrustStore.CertsAreReference | src/common/helpers/secure-context/get-trust-store-certs.js:3-6 | The map/filter/map pipeline equals the entry-by-entry reference definition |
| TrustStore.DecodedAreTrimmed | src/common/helpers/secure-context/get-trust-store-certs.js:6 | Every decoded and trimmed value has no white space at either end |
| TrustStore.ReferenceCount | src/common/helpers/secure-context/get-trust-store-certs.js:4-5 | The number of certificates is the number of qualifying variables |
| TrustStore.CertsAppend | src/common/helpers/secure-context/get-trust-store-certs.js:3-6 | The certificates of two blocks of variables are the first block's followed by the second's, so input order is kept |
| TrustStore.OneVariable | src/common/helpers/secure-context/get-trust-store-certs.js:4-6 | A single variable contributes its decoded, trimmed value exactly when its name has the prefix and its value is non-empty |
| TrustStore.NoCertVariables | src/common/helpers/secure-context/get-trust-store-certs.js:4-5 | With no qualifying variable there are no certificates |
| TrustStore.WhitespaceValueYieldsEmptyCert | src/common/helpers/secure-context/get-trust-store-certs.js:5-6 | The value is tested before decoding, so a non-empty value that decodes to white space still yields an empty certificate |

## Left out

- I/O and asynchrony are not modelled. This covers the database driver, the
  promises, the CSV stream and its `error` event, and a `bulkCreate` failure
  other than validation. Each operation is modelled as one synchronous step
  on the tables.
- `new Date()` is a parameter. `createPayment` takes one reading. The bulk
  upload takes one reading per mapped row, following the code at
  src/data/payments-admin.js:135, which reads the clock once for each row.
- `Number.parseFloat`, `new Date(text)`, base64 decoding and the model
  validators are parameters. JavaScript's `new Date(text)` returns an
  invalid date rather than throwing. The model lets the conversion fail so
  that the row-error path of the code is covered; with a conversion that
  never fails, `IngestWithoutErrors` applies.
- PaymentsAdmin.GetPaymentById: the `raw: true` option and the plain object
  returned are not distinguished from the row value.
- String order: PostgreSQL collation and `localeCompare` are modelled as
  code-point order. That order agrees with them on the `YY/YY` and digit
  years the service stores.
- PaymentsAdmin.SearchIsCaseInsensitiveSubstring: case folding is ASCII
  only. `ILIKE`'s backslash escape is not modelled. A search string holding
  `%` or `_` is still matched as a pattern, as the code does.
- Ties in `ORDER BY` keep the table order. SQL leaves their order open, and
  this is one of the orders it allows.
- Summary.GroupPaymentsByYear: the keys are recorded in first-insertion
  order. JavaScript lists integer-like keys first, but financial years like
  `21/22` are not integer-like. A year named like an `Object.prototype`
  property, such as `constructor`, would be truthy in `acc[...]` and is not
  modelled.
- Summary.GroupsReassemble: the law is stated for year-sorted input, which
  is the only input the summary passes to the grouping.
- Amounts are whole pence, and are printed with at most two decimals.
  JavaScript's exponent notation for numbers of 1e21 and above, and
  fractional pence, are not modelled.
- PaymentsAdmin.DeletePaymentsByYear: the counts and deletes are separate
  queries without a transaction. The model treats them as one step, so a
  concurrent writer between them is not covered.
- The HTTP routes, Joi validation, configuration, server start-up and
  metrics lie outside these data modules and are not part of this model.
- The CSV parser (`csv-parser`) is not part of this model. The upload
  receives already-parsed rows, keyed by the columns it reads.
- The CSV writer (`@json2csv/node`) is modelled by its documented output.
  That output is a quoted header, quoted string fields with doubled quotes,
  bare numbers and newline-separated lines.
