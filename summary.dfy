/** The public payment summary: the per-(year, scheme) totals sorted by
    financial year, either grouped into an object keyed by year or exported
    as CSV. The totals are a parameter: the query that fetches them is not
    part of this model. */
module Summary {
  import opened Wrappers
  import opened Seqs
  import opened Sorting
  import opened Text
  import opened Records
  import opened Csv

  /** The comparator `a.financial_year.localeCompare(b.financial_year) <= 0`. */
  function YearLe(a: SchemeTotal, b: SchemeTotal): bool
  {
    StrLe(a.financialYear, b.financialYear)
  }

  lemma YearLeIsTotalPreorder()
    ensures TotalPreorder(YearLe)
  {
    StrLeOrder();
  }

  function OfYear(y: string): SchemeTotal -> bool
  {
    (t: SchemeTotal) => t.financialYear == y
  }

  function Years(s: seq<SchemeTotal>): seq<string>
  {
    Map(s, (t: SchemeTotal) => t.financialYear)
  }

  // ---------------------------------------------------------------------------
  // sortByFinancialYear

  /** A copy of `payments` in ascending year order (`toSorted` leaves the
      input as it is). */
  function SortByFinancialYear(payments: seq<SchemeTotal>): (r: seq<SchemeTotal>)
    ensures multiset(r) == multiset(payments)
    ensures SortedBy(r, YearLe)
    ensures forall y :: Filter(r, OfYear(y)) == Filter(payments, OfYear(y))
  {
    SortByFinancialYearFacts(payments);
    SortBy(payments, YearLe)
  }

  /** The sort is by year and stable: the rows of any one year keep their
      input order. */
  lemma SortByFinancialYearFacts(payments: seq<SchemeTotal>)
    ensures SortedBy(SortBy(payments, YearLe), YearLe)
    ensures forall y :: Filter(SortBy(payments, YearLe), OfYear(y)) == Filter(payments, OfYear(y))
  {
    YearLeIsTotalPreorder();
    SortSorted(payments, YearLe);
    forall y ensures Filter(SortBy(payments, YearLe), OfYear(y)) == Filter(payments, OfYear(y)) {
      var z := SchemeTotal(y, "", 0);
      SortStable(payments, YearLe, z);
      SameYearIsEquivalent(SortBy(payments, YearLe), y);
      SameYearIsEquivalent(payments, y);
    }
  }

  /** Comparing equal in both directions is having the same year. */
  lemma SameYearIsEquivalent(s: seq<SchemeTotal>, y: string)
    ensures Filter(s, Equiv(YearLe, SchemeTotal(y, "", 0))) == Filter(s, OfYear(y))
  {
    var z := SchemeTotal(y, "", 0);
    forall i | 0 <= i < |s| ensures Equiv(YearLe, z)(s[i]) == OfYear(y)(s[i]) {
      assert Equiv(YearLe, z)(s[i]) == (YearLe(s[i], z) && YearLe(z, s[i]));
      assert OfYear(y)(s[i]) == (s[i].financialYear == y);
      StrLeTotal(y, y);
      if StrLe(s[i].financialYear, y) && StrLe(y, s[i].financialYear) {
        StrLeAntisymmetric(s[i].financialYear, y);
      }
    }
    FilterCongruent(s, Equiv(YearLe, z), OfYear(y));
  }

  // ---------------------------------------------------------------------------
  // groupPaymentsByYear

  /** A JavaScript object of arrays: its keys in insertion order and the
      array stored under each. */
  datatype Grouping = Grouping(keys: seq<string>, groups: map<string, seq<SchemeTotal>>)

  /** The `reduce` that pushes every item onto the array under its year,
      creating the array when the year is first met. */
  method GroupPaymentsByYear(payments: seq<SchemeTotal>) returns (g: Grouping)
    ensures g.keys == Distinct(Years(payments))
    ensures GroupedBy(g.groups, payments)
  {
    var keys: seq<string> := [];
    var acc: map<string, seq<SchemeTotal>> := map[];
    for i := 0 to |payments|
      invariant keys == Distinct(Years(payments[..i]))
      invariant GroupedBy(acc, payments[..i])
    {
      var item := payments[i];
      var y := item.financialYear;
      PrefixStep(payments, i);
      GroupLoopStep(payments[..i], item, keys, acc);
      var group := [];
      if y in acc {
        group := acc[y];
      } else {
        keys := keys + [y];
      }
      acc := acc[y := group + [item]];
    }
    assert payments[..|payments|] == payments;
    g := Grouping(keys, acc);
  }

  /** `acc` holds, under each year that occurs in `s`, the rows of that year,
      and nothing under any other key. */
  ghost predicate GroupedBy(acc: map<string, seq<SchemeTotal>>, s: seq<SchemeTotal>)
  {
    forall y :: (y in acc <==> Filter(s, OfYear(y)) != []) && (y in acc ==> acc[y] == Filter(s, OfYear(y)))
  }

  /** One turn of the `reduce`: the year is a key exactly when it has been
      seen, and pushing the item (onto a new array if the year is new) keeps
      both loop invariants. */
  lemma GroupLoopStep(prefix: seq<SchemeTotal>, item: SchemeTotal, keys: seq<string>, acc: map<string, seq<SchemeTotal>>)
    requires keys == Distinct(Years(prefix)) && GroupedBy(acc, prefix)
    ensures item.financialYear in acc <==> item.financialYear in keys
    ensures var y := item.financialYear;
      && (if y in acc then keys else keys + [y]) == Distinct(Years(prefix + [item]))
      && GroupedBy(acc[y := (if y in acc then acc[y] else []) + [item]], prefix + [item])
  {
    var y := item.financialYear;
    YearSeen(prefix, y);
    GroupStep(prefix, item, y);
    DistinctMembers(Years(prefix), y);
    GroupedByStep(acc, prefix, item, acc[y := (if y in acc then acc[y] else []) + [item]]);
  }

  /** Pushing an item onto the array under its year keeps the accumulator
      grouped. */
  lemma GroupedByStep(acc: map<string, seq<SchemeTotal>>, prefix: seq<SchemeTotal>, item: SchemeTotal, acc': map<string, seq<SchemeTotal>>)
    requires GroupedBy(acc, prefix)
    requires acc' == acc[item.financialYear := (if item.financialYear in acc then acc[item.financialYear] else []) + [item]]
    ensures GroupedBy(acc', prefix + [item])
  {
    forall z ensures (z in acc' <==> Filter(prefix + [item], OfYear(z)) != []) && (z in acc' ==> acc'[z] == Filter(prefix + [item], OfYear(z))) {
      GroupStep(prefix, item, z);
    }
  }

  lemma YearsAppend(prefix: seq<SchemeTotal>, item: SchemeTotal)
    ensures Years(prefix + [item]) == Years(prefix) + [item.financialYear]
  {
  }

  /** A year has been seen exactly when its group is not empty. */
  lemma YearSeen(prefix: seq<SchemeTotal>, y: string)
    ensures y in Years(prefix) <==> Filter(prefix, OfYear(y)) != []
  {
    var f := Filter(prefix, OfYear(y));
    if f != [] {
      assert f[0] in prefix;
      var k :| 0 <= k < |prefix| && prefix[k] == f[0];
      assert Years(prefix)[k] == y;
    }
    if y in Years(prefix) {
      var k :| 0 <= k < |prefix| && Years(prefix)[k] == y;
      assert OfYear(y)(prefix[k]);
      assert prefix[k] in f;
    }
  }

  /** Appending a value adds it to the distinct values when it is new. */
  lemma DistinctAppend(ys: seq<string>, y: string)
    ensures Distinct(ys + [y]) == if y in Distinct(ys) then Distinct(ys) else Distinct(ys) + [y]
  {
    var zs := ys + [y];
    assert zs[..|zs| - 1] == ys;
  }

  /** What one more item does to the years seen and to each year's rows. */
  lemma GroupStep(prefix: seq<SchemeTotal>, item: SchemeTotal, z: string)
    ensures Distinct(Years(prefix + [item])) ==
      if item.financialYear in Distinct(Years(prefix)) then Distinct(Years(prefix))
      else Distinct(Years(prefix)) + [item.financialYear]
    ensures Filter(prefix + [item], OfYear(z)) == Filter(prefix, OfYear(z)) + (if item.financialYear == z then [item] else [])
  {
    YearsAppend(prefix, item);
    DistinctAppend(Years(prefix), item.financialYear);
    YearRowsStep(prefix, item, z);
  }

  lemma YearRowsStep(prefix: seq<SchemeTotal>, item: SchemeTotal, z: string)
    ensures Filter(prefix + [item], OfYear(z)) == Filter(prefix, OfYear(z)) + (if item.financialYear == z then [item] else [])
  {
    FilterAppend(prefix, [item], OfYear(z));
    FilterSingle(item, OfYear(z));
  }

  /** The groups laid end to end in key order. */
  function ConcatGroups(keys: seq<string>, s: seq<SchemeTotal>): seq<SchemeTotal>
  {
    if keys == [] then []
    else ConcatGroups(keys[..|keys| - 1], s) + Filter(s, OfYear(keys[|keys| - 1]))
  }

  /** For input already sorted by year, laying the groups end to end in key
      order gives back the input. */
  lemma {:induction false} GroupsReassemble(s: seq<SchemeTotal>)
    requires SortedBy(s, YearLe)
    ensures ConcatGroups(Distinct(Years(s)), s) == s
    decreases |s|
  {
    if s != [] {
      var init, x := s[..|s| - 1], s[|s| - 1];
      SortedInit(s);
      GroupsReassemble(init);
      ReassembleLast(s);
    }
  }

  lemma SortedInit(s: seq<SchemeTotal>)
    requires s != [] && SortedBy(s, YearLe)
    ensures SortedBy(s[..|s| - 1], YearLe)
  {
    var init := s[..|s| - 1];
    forall i, j | 0 <= i < j < |init| ensures YearLe(init[i], init[j]) {
      assert init[i] == s[i] && init[j] == s[j];
    }
  }

  lemma ReassembleLast(s: seq<SchemeTotal>)
    requires s != [] && SortedBy(s, YearLe)
    requires ConcatGroups(Distinct(Years(s[..|s| - 1])), s[..|s| - 1]) == s[..|s| - 1]
    ensures ConcatGroups(Distinct(Years(s)), s) == s
  {
    var init, x := s[..|s| - 1], s[|s| - 1];
    LastSplit(s);
    ReassembleStep(init, x);
  }

  /** One more row at the end of sorted input joins the last group or opens
      a new one; either way the groups still lay out the input. */
  lemma ReassembleStep(init: seq<SchemeTotal>, x: SchemeTotal)
    requires SortedBy(init + [x], YearLe)
    requires ConcatGroups(Distinct(Years(init)), init) == init
    ensures ConcatGroups(Distinct(Years(init + [x])), init + [x]) == init + [x]
  {
    var y := x.financialYear;
    var keys0 := Distinct(Years(init));
    YearsAppend(init, x);
    DistinctAppend(Years(init), y);
    if y in keys0 {
      LastKeyIsLastYear(init, x);
      AppendToLastGroup(keys0, init, x);
    } else {
      DistinctMembers(Years(init), y);
      YearSeen(init, y);
      AppendNewGroup(keys0, init, x);
    }
  }

  /** When the year of a row appended to sorted input was already seen, it is
      the last key. */
  lemma LastKeyIsLastYear(init: seq<SchemeTotal>, x: SchemeTotal)
    requires SortedBy(init + [x], YearLe)
    requires x.financialYear in Distinct(Years(init))
    ensures var keys := Distinct(Years(init));
      keys != [] && keys[|keys| - 1] == x.financialYear && Distinct(Years(init + [x])) == keys
  {
    SeenYearKeepsKeys(init, x);
    LastKeyOfSorted(init + [x]);
  }

  lemma SeenYearKeepsKeys(init: seq<SchemeTotal>, x: SchemeTotal)
    requires x.financialYear in Distinct(Years(init))
    ensures Distinct(Years(init + [x])) == Distinct(Years(init))
  {
    YearsAppend(init, x);
    DistinctAppend(Years(init), x.financialYear);
  }

  /** The last key of sorted input is the year of its last row. */
  lemma LastKeyOfSorted(s: seq<SchemeTotal>)
    requires s != [] && SortedBy(s, YearLe)
    ensures Distinct(Years(s)) != [] && Distinct(Years(s))[|Distinct(Years(s))| - 1] == s[|s| - 1].financialYear
  {
    YearsSorted(s);
    LastOfDistinct(Years(s));
    LastOfMap(s);
  }

  lemma LastOfMap(s: seq<SchemeTotal>)
    requires s != []
    ensures Years(s)[|s| - 1] == s[|s| - 1].financialYear
  {
  }

  lemma YearsSorted(s: seq<SchemeTotal>)
    requires SortedBy(s, YearLe)
    ensures Pairwise(Years(s), StrLe)
  {
    forall i, j | 0 <= i < j < |s| ensures StrLe(Years(s)[i], Years(s)[j]) {
      assert YearLe(s[i], s[j]);
    }
  }

  /** A row whose year is the last key joins the end of the last group. */
  lemma AppendToLastGroup(keys: seq<string>, init: seq<SchemeTotal>, x: SchemeTotal)
    requires keys != [] && keys[|keys| - 1] == x.financialYear && NoRepeats(keys)
    ensures ConcatGroups(keys, init + [x]) == ConcatGroups(keys, init) + [x]
  {
    var ks := keys[..|keys| - 1];
    forall k | 0 <= k < |ks| ensures ks[k] != x.financialYear {
      assert keys[k] == ks[k];
    }
    ConcatOtherYears(ks, init, x);
    FilterAppend(init, [x], OfYear(x.financialYear));
    FilterSingle(x, OfYear(x.financialYear));
    ConcatAssoc(ConcatGroups(ks, init), Filter(init, OfYear(x.financialYear)), [x]);
  }

  /** A row of a year not seen before opens a group of its own at the end. */
  lemma AppendNewGroup(keys: seq<string>, init: seq<SchemeTotal>, x: SchemeTotal)
    requires x.financialYear !in keys
    requires Filter(init, OfYear(x.financialYear)) == []
    ensures ConcatGroups(keys + [x.financialYear], init + [x]) == ConcatGroups(keys, init) + [x]
  {
    var keys' := keys + [x.financialYear];
    assert keys'[..|keys'| - 1] == keys;
    ConcatOtherYears(keys, init, x);
    FilterAppend(init, [x], OfYear(x.financialYear));
  }

  /** A row of a year not among `keys` does not show up in their groups. */
  lemma {:induction false} ConcatOtherYears(keys: seq<string>, init: seq<SchemeTotal>, x: SchemeTotal)
    requires x.financialYear !in keys
    ensures ConcatGroups(keys, init + [x]) == ConcatGroups(keys, init)
  {
    if keys != [] {
      ConcatOtherYears(keys[..|keys| - 1], init, x);
      FilterAppend(init, [x], OfYear(keys[|keys| - 1]));
    }
  }

  /** Without repetitions, the last key of an ascending sequence is its last
      element. */
  lemma {:induction false} LastOfDistinct(ys: seq<string>)
    requires ys != [] && Pairwise(ys, StrLe)
    ensures Distinct(ys) != [] && Distinct(ys)[|Distinct(ys)| - 1] == ys[|ys| - 1]
  {
    var init, l := ys[..|ys| - 1], ys[|ys| - 1];
    if l in Distinct(init) {
      assert l in init;
      var k :| 0 <= k < |init| && init[k] == l;
      PairwiseInit(ys);
      LastOfDistinct(init);
      RepeatedLast(ys, k);
    }
  }

  lemma PairwiseInit(ys: seq<string>)
    requires ys != [] && Pairwise(ys, StrLe)
    ensures Pairwise(ys[..|ys| - 1], StrLe)
  {
    var init := ys[..|ys| - 1];
    forall i, j | 0 <= i < j < |init| ensures StrLe(init[i], init[j]) {
      assert init[i] == ys[i] && init[j] == ys[j];
    }
  }

  /** In an ascending sequence, a value that reappears at the end also sits
      just before it. */
  lemma RepeatedLast(ys: seq<string>, k: nat)
    requires Pairwise(ys, StrLe) && k < |ys| - 1 && ys[k] == ys[|ys| - 1]
    ensures ys[|ys| - 2] == ys[|ys| - 1]
  {
    var m := |ys| - 2;
    assert StrLe(ys[m], ys[m + 1]);
    if k < m {
      assert StrLe(ys[k], ys[m]);
      StrLeAntisymmetric(ys[k], ys[m]);
    }
  }

  /** The keys of sorted input come out strictly ascending. */
  lemma {:induction false} DistinctAscending(ys: seq<string>)
    requires Pairwise(ys, StrLe)
    ensures Pairwise(Distinct(ys), StrLt)
  {
    if ys != [] {
      var init, l := ys[..|ys| - 1], ys[|ys| - 1];
      assert Pairwise(init, StrLe);
      DistinctAscending(init);
      var d := Distinct(init);
      if l !in d {
        var r := d + [l];
        forall i, j | 0 <= i < j < |r| ensures StrLt(r[i], r[j]) {
          if j == |d| {
            assert r[i] in init;
            var k :| 0 <= k < |init| && init[k] == r[i];
            assert StrLe(ys[k], ys[|ys| - 1]);
          } else {
            assert r[i] == d[i] && r[j] == d[j];
          }
        }
      }
    }
  }

  // ---------------------------------------------------------------------------
  // getPaymentSummary and getPaymentSummaryCsv

  /** The totals sorted by year, then grouped: one key per year present, in
      ascending year order, each holding that year's rows in input order. */
  method GetPaymentSummary(payments: seq<SchemeTotal>) returns (g: Grouping)
    ensures g.keys == Distinct(Years(SortByFinancialYear(payments)))
    ensures Pairwise(g.keys, StrLt)
    ensures forall y :: y in g.keys <==> y in g.groups
    ensures GroupedBy(g.groups, payments)
  {
    var sorted := SortByFinancialYear(payments);
    g := GroupPaymentsByYear(sorted);
    SortedGroups(payments, g.groups);
    SortedKeys(payments);
    KeysAreGroups(sorted, g.groups);
  }

  /** Sorting does not change any year's rows, so it does not change the
      grouping either. */
  lemma SortedGroups(payments: seq<SchemeTotal>, acc: map<string, seq<SchemeTotal>>)
    requires GroupedBy(acc, SortByFinancialYear(payments))
    ensures GroupedBy(acc, payments)
  {
  }

  /** The years of sorted rows, without repetitions, are strictly ascending. */
  lemma SortedKeys(payments: seq<SchemeTotal>)
    ensures Pairwise(Distinct(Years(SortByFinancialYear(payments))), StrLt)
  {
    YearsSorted(SortByFinancialYear(payments));
    DistinctAscending(Years(SortByFinancialYear(payments)));
  }

  /** The keys recorded in order are the keys of the object. */
  lemma KeysAreGroups(s: seq<SchemeTotal>, acc: map<string, seq<SchemeTotal>>)
    requires GroupedBy(acc, s)
    ensures forall y :: y in Distinct(Years(s)) <==> y in acc
  {
    forall y ensures y in Distinct(Years(s)) <==> y in acc {
      DistinctMembers(Years(s), y);
      YearSeen(s, y);
    }
  }

  /** The years of the test data are in ascending order. */
  lemma ExampleYears(a: string, b: string)
    requires a == "20/21" && b == "21/22"
    ensures StrLt(a, b)
  {
    assert a[0] == b[0] && a[1] < b[1];
  }

  /** Rows of the years b, a, b (with a before b) sort to a, b, b, the two
      rows of b keeping their order. */
  lemma ExampleSorted(a: string, b: string, r1: SchemeTotal, r2: SchemeTotal, r3: SchemeTotal)
    requires StrLt(a, b)
    requires r1.financialYear == b && r2.financialYear == a && r3.financialYear == b
    ensures SortByFinancialYear([r1, r2, r3]) == [r2, r1, r3]
  {
    if StrLe(b, a) {
      StrLeAntisymmetric(a, b);
    }
    StrLeTotal(b, b);
    SortThree(r1, r2, r3, YearLe);
  }

  /** Insertion sort of three elements where only the first must move
      behind the second. */
  lemma SortThree<T>(x1: T, x2: T, x3: T, le: (T, T) -> bool)
    requires !le(x1, x2) && le(x2, x3) && le(x1, x3)
    ensures SortBy([x1, x2, x3], le) == [x2, x1, x3]
  {
    var s := [x1, x2, x3];
    assert s[..2] == [x1, x2];
    SortTwo(x1, x2, le);
    InsertLast(x3, x2, x1, le);
  }

  lemma SortTwo<T>(x1: T, x2: T, le: (T, T) -> bool)
    requires !le(x1, x2)
    ensures SortBy([x1, x2], le) == [x2, x1]
  {
    var s := [x1, x2];
    assert s[..1] == [x1] && [x1][..0] == [];
    assert SortBy([x1], le) == [x1];
  }

  lemma InsertLast<T>(x: T, y1: T, y2: T, le: (T, T) -> bool)
    requires le(y1, x) && le(y2, x)
    ensures Insert(x, [y1, y2], le) == [y1, y2, x]
  {
    assert [y1, y2][1..] == [y2] && [y2][1..] == [];
    assert Insert(x, [], le) == [x];
    assert Insert(x, [y2], le) == [y2] + [x];
    assert Insert(x, [y1, y2], le) == [y1] + Insert(x, [y2], le);
  }

  /** The test data (21/22, 200), (20/21, 100), (21/22, 300) gives the keys
      20/21 then 21/22, holding the 20/21 row and the two 21/22 rows in
      their original order. */
  lemma SummaryExample(a: string, b: string, r1: SchemeTotal, r2: SchemeTotal, r3: SchemeTotal)
    requires StrLt(a, b)
    requires r1.financialYear == b && r2.financialYear == a && r3.financialYear == b
    ensures Distinct(Years(SortByFinancialYear([r1, r2, r3]))) == [a, b]
    ensures Filter([r1, r2, r3], OfYear(a)) == [r2]
    ensures Filter([r1, r2, r3], OfYear(b)) == [r1, r3]
  {
    ExampleSorted(a, b, r1, r2, r3);
    YearsOfThree(r2, r1, r3);
    ExampleKeys(a, b);
    ExampleGroups(a, b, r1, r2, r3);
  }

  lemma YearsOfThree(r1: SchemeTotal, r2: SchemeTotal, r3: SchemeTotal)
    ensures Years([r1, r2, r3]) == [r1.financialYear, r2.financialYear, r3.financialYear]
  {
  }

  lemma ExampleKeys(a: string, b: string)
    requires a != b
    ensures Distinct([a, b, b]) == [a, b]
  {
    DistinctTwo(a, b);
    assert [a, b, b] == [a, b] + [b];
    DistinctAppend([a, b], b);
  }

  lemma DistinctTwo(a: string, b: string)
    requires a != b
    ensures Distinct([a, b]) == [a, b]
  {
    DistinctOne(a);
    assert [a, b] == [a] + [b];
    DistinctAppend([a], b);
  }

  lemma DistinctOne(a: string)
    ensures Distinct([a]) == [a]
  {
    assert [a] == [] + [a];
    DistinctAppend([], a);
  }

  lemma ExampleGroups(a: string, b: string, r1: SchemeTotal, r2: SchemeTotal, r3: SchemeTotal)
    requires a != b
    requires r1.financialYear == b && r2.financialYear == a && r3.financialYear == b
    ensures Filter([r1, r2, r3], OfYear(a)) == [r2]
    ensures Filter([r1, r2, r3], OfYear(b)) == [r1, r3]
  {
    assert [r1, r2, r3][1..] == [r2, r3] && [r2, r3][1..] == [r3] && [r3][1..] == [];
    assert Filter([r3], OfYear(a)) == [];
    assert Filter([r2, r3], OfYear(a)) == [r2];
    assert Filter([r3], OfYear(b)) == [r3];
    assert Filter([r2, r3], OfYear(b)) == [r3];
  }

  /** The lines of the export: the header, then one line per total in
      ascending year order, each reading back as that total. */
  function SummaryLines(payments: seq<SchemeTotal>): (lines: seq<string>)
    ensures |lines| == |payments| + 1
    ensures lines[0] == HeaderOf(FieldLabels)
    ensures forall i :: 0 <= i < |payments| ==> ReadRow(lines[i + 1]) == Some(SortByFinancialYear(payments)[i])
  {
    var sorted := SortByFinancialYear(payments);
    var rows := RenderRows(sorted);
    HeaderThenRows(HeaderOf(FieldLabels), rows, sorted);
    [HeaderOf(FieldLabels)] + rows
  }

  lemma HeaderThenRows(header: string, rows: seq<string>, s: seq<SchemeTotal>)
    requires |rows| == |s|
    requires forall i :: 0 <= i < |s| ==> ReadRow(rows[i]) == Some(s[i])
    ensures forall i :: 0 <= i < |s| ==> ReadRow(([header] + rows)[i + 1]) == Some(s[i])
  {
    forall i | 0 <= i < |s| ensures ReadRow(([header] + rows)[i + 1]) == Some(s[i]) {
      assert ([header] + rows)[i + 1] == rows[i];
    }
  }

  /** One line per row, each reading back as its row. */
  function RenderRows(s: seq<SchemeTotal>): (lines: seq<string>)
    ensures |lines| == |s|
    ensures forall i :: 0 <= i < |s| ==> ReadRow(lines[i]) == Some(s[i])
  {
    RowsRoundTrip(s);
    Map(s, RenderRow)
  }

  lemma RowsRoundTrip(s: seq<SchemeTotal>)
    ensures forall i :: 0 <= i < |s| ==> ReadRow(RenderRow(s[i])) == Some(s[i])
  {
    forall i | 0 <= i < |s| ensures ReadRow(RenderRow(s[i])) == Some(s[i]) {
      RowRoundTrip(s[i]);
    }
  }

  /** The CSV text: the header line, then the line of each total in ascending
      year order, separated by newlines. Line `i + 1` of the text reads back
      as the `i`-th total in year order. */
  function GetPaymentSummaryCsv(payments: seq<SchemeTotal>): (csv: string)
    ensures |csv| >= |HeaderOf(FieldLabels)| && csv[..|HeaderOf(FieldLabels)|] == HeaderOf(FieldLabels)
    ensures LaidOut(csv, SummaryLines(payments))
    ensures forall i :: 0 <= i < |payments| ==>
      LineReadsAs(csv, SummaryLines(payments), i + 1, SortByFinancialYear(payments)[i])
  {
    FirstLine(JoinLines(SummaryLines(payments)), SummaryLines(payments));
    CsvLinesReadBack(JoinLines(SummaryLines(payments)), SummaryLines(payments), SortByFinancialYear(payments));
    JoinLines(SummaryLines(payments))
  }

  /** Line `k` of the text laid out from `lines` reads back as `t`. */
  ghost predicate LineReadsAs(csv: string, lines: seq<string>, k: nat, t: SchemeTotal)
  {
    && k < |lines|
    && LineStart(lines, k) + |lines[k]| <= |csv|
    && ReadRow(csv[LineStart(lines, k)..LineStart(lines, k) + |lines[k]|]) == Some(t)
  }

  lemma CsvLinesReadBack(csv: string, lines: seq<string>, sorted: seq<SchemeTotal>)
    requires LaidOut(csv, lines) && |lines| == |sorted| + 1
    requires forall i :: 0 <= i < |sorted| ==> ReadRow(lines[i + 1]) == Some(sorted[i])
    ensures forall i :: 0 <= i < |sorted| ==> LineReadsAs(csv, lines, i + 1, sorted[i])
  {
    forall i | 0 <= i < |sorted| ensures LineReadsAs(csv, lines, i + 1, sorted[i]) {
      assert csv[LineStart(lines, i + 1)..LineStart(lines, i + 1) + |lines[i + 1]|] == lines[i + 1];
    }
  }

  /** In the text, the line of an earlier total ends before the line of a
      later one starts, and its year is not after the later one's: the export
      lists the totals by ascending year. */
  lemma CsvRowsInYearOrder(payments: seq<SchemeTotal>, i: nat, j: nat)
    requires i < j < |payments|
    ensures LineStart(SummaryLines(payments), i + 1) + |SummaryLines(payments)[i + 1]| < LineStart(SummaryLines(payments), j + 1)
    ensures YearLe(SortByFinancialYear(payments)[i], SortByFinancialYear(payments)[j])
  {
    DataLinesInOrder(SummaryLines(payments), i, j);
    var sorted := SortByFinancialYear(payments);
    assert SortedBy(sorted, YearLe);
  }

  lemma DataLinesInOrder(lines: seq<string>, i: nat, j: nat)
    requires i < j < |lines| - 1
    ensures LineStart(lines, i + 1) + |lines[i + 1]| < LineStart(lines, j + 1)
  {
    LinesInOrder(lines, i + 1, j + 1);
  }
}
