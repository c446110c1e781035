/** The CSV text the summary export produces: every string cell in double
    quotes with embedded quotes doubled, numbers bare, cells separated by
    commas and lines by a newline. A reader for that shape is the partner the
    rendering is proved against. */
module Csv {
  import opened Wrappers
  import opened Records

  // ---------------------------------------------------------------------------
  // Quoted string cells

  /** Every `"` of `s` doubled. */
  function EscapeQuotes(s: string): (r: string)
    ensures |r| >= |s|
  {
    if s == [] then []
    else (if s[0] == '"' then "\"\"" else [s[0]]) + EscapeQuotes(s[1..])
  }

  /** Text without quotes is left as it is. */
  lemma {:induction false} EscapeQuotesWithoutQuotes(s: string)
    requires forall i :: 0 <= i < |s| ==> s[i] != '"'
    ensures EscapeQuotes(s) == s
  {
    if s != [] {
      EscapeQuotesWithoutQuotes(s[1..]);
    }
  }

  /** Escaping distributes over concatenation. */
  lemma {:induction false} EscapeQuotesAppend(a: string, b: string)
    ensures EscapeQuotes(a + b) == EscapeQuotes(a) + EscapeQuotes(b)
  {
    if a == [] {
      assert a + b == b;
    } else {
      assert (a + b)[1..] == a[1..] + b;
      EscapeQuotesAppend(a[1..], b);
    }
  }

  /** A string cell: the escaped text between double quotes. */
  function Quote(s: string): string
  {
    "\"" + EscapeQuotes(s) + "\""
  }

  /** Reads the inside of a quoted cell up to its closing quote, turning each
      doubled quote back into one; yields the text and what follows the cell. */
  function ReadQuoted(s: string): (r: Option<(string, string)>)
    ensures r.Some? ==> |r.value.1| < |s|
  {
    if s == [] then None
    else if s[0] != '"' then
      match ReadQuoted(s[1..])
      case None => None
      case Some((text, rest)) => Some(([s[0]] + text, rest))
    else if |s| >= 2 && s[1] == '"' then
      match ReadQuoted(s[2..])
      case None => None
      case Some((text, rest)) => Some(("\"" + text, rest))
    else Some(([], s[1..]))
  }

  /** Reading back the inside of a quoted cell gives the original text, and
      stops right after the closing quote whenever the next character is not
      itself a quote (a comma, say, or the end of the line). */
  lemma {:induction false} ReadQuotedEscaped(s: string, rest: string)
    requires rest == [] || rest[0] != '"'
    ensures ReadQuoted(EscapeQuotes(s) + "\"" + rest) == Some((s, rest))
  {
    if s == [] {
      assert EscapeQuotes(s) + "\"" + rest == "\"" + rest;
    } else {
      ReadQuotedEscaped(s[1..], rest);
      var tail := EscapeQuotes(s[1..]) + "\"" + rest;
      EscapeFirst(s, rest);
      if s[0] == '"' {
        ReadDoubledQuote(tail);
      } else {
        ReadPlainChar(s[0], tail);
      }
      assert [s[0]] + s[1..] == s;
    }
  }

  /** Escaping a non-empty string escapes its first character, then the rest. */
  lemma EscapeFirst(s: string, rest: string)
    requires s != []
    ensures EscapeQuotes(s) + "\"" + rest ==
      (if s[0] == '"' then "\"\"" else [s[0]]) + (EscapeQuotes(s[1..]) + "\"" + rest)
  {
  }

  /** A doubled quote reads as one quote, and reading carries on after it. */
  lemma ReadDoubledQuote(tail: string)
    ensures ReadQuoted("\"\"" + tail) ==
      match ReadQuoted(tail)
      case None => None
      case Some((text, rest)) => Some(("\"" + text, rest))
  {
    assert ("\"\"" + tail)[2..] == tail;
  }

  /** Any other character reads as itself. */
  lemma ReadPlainChar(c: char, tail: string)
    requires c != '"'
    ensures ReadQuoted([c] + tail) ==
      match ReadQuoted(tail)
      case None => None
      case Some((text, rest)) => Some(([c] + text, rest))
  {
    assert ([c] + tail)[1..] == tail;
  }

  /** A comma or a quote inside a string cell stays within the cell: the cell
      reads back whole and the reader resumes after its closing quote. */
  lemma QuoteRoundTrip(s: string, rest: string)
    requires rest == [] || rest[0] != '"'
    ensures (Quote(s) + rest)[0] == '"'
    ensures ReadQuoted((Quote(s) + rest)[1..]) == Some((s, rest))
  {
    ReadQuotedEscaped(s, rest);
    assert (Quote(s) + rest)[1..] == EscapeQuotes(s) + "\"" + rest;
  }

  // ---------------------------------------------------------------------------
  // Numbers

  function DigitChar(d: nat): char
    requires d < 10
  {
    "0123456789"[d]
  }

  predicate IsDigit(c: char)
  {
    '0' <= c <= '9'
  }

  function DigitValue(c: char): nat
    requires IsDigit(c)
  {
    (c as int - '0' as int) as nat
  }

  /** The decimal numeral of `n`, without leading zeros. */
  function Numeral(n: nat): (r: string)
    ensures |r| >= 1
    ensures forall i :: 0 <= i < |r| ==> IsDigit(r[i])
  {
    if n < 10 then [DigitChar(n)] else Numeral(n / 10) + [DigitChar(n % 10)]
  }

  /** The value of a non-empty string of decimal digits. */
  function NumeralValue(s: string): nat
    requires |s| >= 1 && forall i :: 0 <= i < |s| ==> IsDigit(s[i])
  {
    if |s| == 1 then DigitValue(s[0])
    else NumeralValue(s[..|s| - 1]) * 10 + DigitValue(s[|s| - 1])
  }

  lemma {:induction false} NumeralRoundTrip(n: nat)
    ensures NumeralValue(Numeral(n)) == n
  {
    if n >= 10 {
      NumeralRoundTrip(n / 10);
      var s := Numeral(n);
      assert s[..|s| - 1] == Numeral(n / 10);
    }
  }

  /** The fractional digits of a non-zero number of pence below a pound, as
      a JavaScript number prints them: one digit when the second is a zero. */
  function Fraction(c: nat): string
    requires 0 < c < 100
  {
    if c % 10 == 0 then [DigitChar(c / 10)] else [DigitChar(c / 10), DigitChar(c % 10)]
  }

  /** An amount of `n` pence without its sign: the whole pounds, and the
      pence after a point only when there are any. */
  function Unsigned(n: nat): (r: string)
    ensures |r| >= 1 && IsDigit(r[0])
    ensures forall i :: 0 <= i < |r| ==> r[i] == '.' || IsDigit(r[i])
  {
    Numeral(n / 100) + (if n % 100 == 0 then "" else "." + Fraction(n % 100))
  }

  /** How a JavaScript number equal to `p` pence prints: an optional minus
      sign, the whole pounds, and the pence after a point only when there are
      any (20000 prints as `200`, 20050 as `200.5`, -5 as `-0.05`). */
  function RenderAmount(p: int): (r: string)
    ensures forall i :: 0 <= i < |r| ==> r[i] == '-' || r[i] == '.' || IsDigit(r[i])
  {
    if p < 0 then "-" + Unsigned(-p) else Unsigned(p)
  }

  predicate AllDigits(s: string)
  {
    |s| >= 1 && forall i :: 0 <= i < |s| ==> IsDigit(s[i])
  }

  /** Reads an unsigned amount with at most two fractional digits, in pence. */
  function ReadUnsigned(s: string): Option<nat>
  {
    if |s| >= 3 && s[|s| - 3] == '.' && AllDigits(s[..|s| - 3]) && IsDigit(s[|s| - 2]) && IsDigit(s[|s| - 1]) then
      Some(NumeralValue(s[..|s| - 3]) * 100 + DigitValue(s[|s| - 2]) * 10 + DigitValue(s[|s| - 1]))
    else if |s| >= 2 && s[|s| - 2] == '.' && AllDigits(s[..|s| - 2]) && IsDigit(s[|s| - 1]) then
      Some(NumeralValue(s[..|s| - 2]) * 100 + DigitValue(s[|s| - 1]) * 10)
    else if AllDigits(s) then
      Some(NumeralValue(s) * 100)
    else None
  }

  /** Reads an amount, in pence. */
  function ReadAmount(s: string): Option<int>
  {
    if |s| >= 1 && s[0] == '-' then
      match ReadUnsigned(s[1..])
      case None => None
      case Some(n) => Some(-(n as int))
    else ReadUnsigned(s)
  }

  lemma DigitRoundTrip(d: nat)
    requires d < 10
    ensures IsDigit(DigitChar(d)) && DigitValue(DigitChar(d)) == d
  {
  }

  lemma UnsignedRoundTrip(n: nat)
    ensures ReadUnsigned(Unsigned(n)) == Some(n)
  {
    var q, c := n / 100, n % 100;
    NumeralRoundTrip(q);
    DivMod(n, 100);
    if c == 0 {
      UnsignedWhole(n, q);
    } else if c % 10 == 0 {
      UnsignedOneDecimal(n, q, c);
    } else {
      UnsignedTwoDecimals(n, q, c);
    }
  }

  lemma DivMod(n: nat, b: nat)
    requires b > 0
    ensures n == n / b * b + n % b
  {
  }

  lemma UnsignedWhole(n: nat, q: nat)
    requires n / 100 == q && n % 100 == 0 && n == q * 100 && NumeralValue(Numeral(q)) == q
    ensures ReadUnsigned(Unsigned(n)) == Some(n)
  {
    var w := Numeral(q);
    assert Unsigned(n) == w + "" == w;
    ReadWhole(w);
  }

  lemma UnsignedOneDecimal(n: nat, q: nat, c: nat)
    requires n / 100 == q && n % 100 == c && n == q * 100 + c && 0 < c < 100 && c % 10 == 0
    requires NumeralValue(Numeral(q)) == q
    ensures ReadUnsigned(Unsigned(n)) == Some(n)
  {
    var w := Numeral(q);
    DivMod(c, 10);
    assert Unsigned(n) == w + ['.', DigitChar(c / 10)];
    ReadOneDecimal(w, c / 10);
  }

  lemma UnsignedTwoDecimals(n: nat, q: nat, c: nat)
    requires n / 100 == q && n % 100 == c && n == q * 100 + c && 0 < c < 100 && c % 10 != 0
    requires NumeralValue(Numeral(q)) == q
    ensures ReadUnsigned(Unsigned(n)) == Some(n)
  {
    var w := Numeral(q);
    DivMod(c, 10);
    assert Unsigned(n) == w + ['.', DigitChar(c / 10), DigitChar(c % 10)];
    ReadTwoDecimals(w, c / 10, c % 10);
  }

  /** Digits alone read as whole pounds. */
  lemma ReadWhole(w: string)
    requires AllDigits(w)
    ensures ReadUnsigned(w) == Some(NumeralValue(w) * 100)
  {
  }

  /** Digits, a point and one digit read as pounds and tens of pence. */
  lemma ReadOneDecimal(w: string, d: nat)
    requires AllDigits(w) && d < 10
    ensures ReadUnsigned(w + ['.', DigitChar(d)]) == Some(NumeralValue(w) * 100 + d * 10)
  {
    var u := w + ['.', DigitChar(d)];
    DigitRoundTrip(d);
    assert u[..|u| - 2] == w;
    assert u[|u| - 3] != '.';
  }

  /** Digits, a point and two digits read as pounds and pence. */
  lemma ReadTwoDecimals(w: string, d1: nat, d2: nat)
    requires AllDigits(w) && d1 < 10 && d2 < 10
    ensures ReadUnsigned(w + ['.', DigitChar(d1), DigitChar(d2)]) == Some(NumeralValue(w) * 100 + d1 * 10 + d2)
  {
    var u := w + ['.', DigitChar(d1), DigitChar(d2)];
    DigitRoundTrip(d1);
    DigitRoundTrip(d2);
    assert u[..|u| - 3] == w;
  }

  /** The printed form of an amount reads back as the same number of pence. */
  lemma AmountRoundTrip(p: int)
    ensures ReadAmount(RenderAmount(p)) == Some(p)
  {
    if p < 0 {
      NegativeRoundTrip(p);
    } else {
      NonNegativeRoundTrip(p);
    }
  }

  lemma NegativeRoundTrip(p: int)
    requires p < 0
    ensures ReadAmount(RenderAmount(p)) == Some(p)
  {
    var n: nat := -p;
    UnsignedRoundTrip(n);
    ReadSigned(Unsigned(n), n);
    RenderNegative(p, n);
  }

  lemma RenderNegative(p: int, n: nat)
    requires p < 0 && n == -p
    ensures RenderAmount(p) == "-" + Unsigned(n)
  {
  }

  lemma NonNegativeRoundTrip(p: int)
    requires p >= 0
    ensures ReadAmount(RenderAmount(p)) == Some(p)
  {
    var u := Unsigned(p);
    UnsignedRoundTrip(p);
    ReadUnsignedAmount(u);
    assert RenderAmount(p) == u;
  }

  /** A minus sign negates the amount after it. */
  lemma ReadSigned(u: string, n: nat)
    requires ReadUnsigned(u) == Some(n)
    ensures ReadAmount("-" + u) == Some(-(n as int))
  {
    assert ("-" + u)[1..] == u;
  }

  /** Text starting with a digit is read as an unsigned amount. */
  lemma ReadUnsignedAmount(u: string)
    requires |u| >= 1 && IsDigit(u[0])
    ensures ReadAmount(u) == ReadUnsigned(u)
  {
  }

  // ---------------------------------------------------------------------------
  // Rows

  /** The labels of the exported fields: `amount` is the label given to the
      `total_amount` value. */
  const FieldLabels: seq<string> := ["financial_year", "scheme", "amount"]

  /** The header line: the labels, each quoted, separated by commas. */
  function HeaderOf(labels: seq<string>): string
  {
    if labels == [] then ""
    else if |labels| == 1 then Quote(labels[0])
    else Quote(labels[0]) + "," + HeaderOf(labels[1..])
  }

  /** A data line: quoted year, quoted scheme, then the bare amount. */
  function RenderRow(t: SchemeTotal): string
  {
    Quote(t.financialYear) + "," + Quote(t.scheme) + ("," + RenderAmount(t.totalAmount))
  }

  /** Reads a data line back into its year, scheme and amount. */
  function ReadRow(line: string): Option<SchemeTotal>
  {
    if line == [] || line[0] != '"' then None
    else match ReadQuoted(line[1..])
      case None => None
      case Some((year, afterYear)) => ReadAfterYear(year, afterYear)
  }

  /** The rest of a data line once its year has been read. */
  function ReadAfterYear(year: string, s: string): Option<SchemeTotal>
  {
    if |s| < 2 || s[0] != ',' || s[1] != '"' then None
    else match ReadQuoted(s[2..])
      case None => None
      case Some((scheme, afterScheme)) => ReadAfterScheme(year, scheme, afterScheme)
  }

  /** The rest of a data line once its year and scheme have been read. */
  function ReadAfterScheme(year: string, scheme: string, s: string): Option<SchemeTotal>
  {
    if s == [] || s[0] != ',' then None
    else match ReadAmount(s[1..])
      case None => None
      case Some(amount) => Some(SchemeTotal(year, scheme, amount))
  }

  /** Every data line reads back as the row it was rendered from, whatever
      commas and quotes the year and scheme contain. */
  lemma RowRoundTrip(t: SchemeTotal)
    ensures ReadRow(RenderRow(t)) == Some(t)
  {
    var afterYear := "," + Quote(t.scheme) + ("," + RenderAmount(t.totalAmount));
    assert RenderRow(t) == Quote(t.financialYear) + afterYear;
    QuoteRoundTrip(t.financialYear, afterYear);
    AfterYearRoundTrip(t);
  }

  lemma AfterYearRoundTrip(t: SchemeTotal)
    ensures ReadAfterYear(t.financialYear, "," + Quote(t.scheme) + ("," + RenderAmount(t.totalAmount))) == Some(t)
  {
    ReadAfterYearStep(t.financialYear, t.scheme, "," + RenderAmount(t.totalAmount));
    AfterSchemeRoundTrip(t);
  }

  /** After the year, the quoted scheme is read whole and reading resumes
      after its closing quote. */
  lemma ReadAfterYearStep(year: string, scheme: string, afterScheme: string)
    requires afterScheme == [] || afterScheme[0] != '"'
    ensures ReadAfterYear(year, "," + Quote(scheme) + afterScheme) == ReadAfterScheme(year, scheme, afterScheme)
  {
    var s := "," + Quote(scheme) + afterScheme;
    assert s[0] == ',' && s[1] == '"';
    assert s[2..] == EscapeQuotes(scheme) + "\"" + afterScheme;
    ReadQuotedEscaped(scheme, afterScheme);
  }

  lemma AfterSchemeRoundTrip(t: SchemeTotal)
    ensures ReadAfterScheme(t.financialYear, t.scheme, "," + RenderAmount(t.totalAmount)) == Some(t)
  {
    var amount := RenderAmount(t.totalAmount);
    assert ("," + amount)[1..] == amount;
    AmountRoundTrip(t.totalAmount);
  }

  /** The lines joined with newlines, with no newline after the last. */
  function JoinLines(lines: seq<string>): (r: string)
    ensures LaidOut(r, lines)
  {
    if lines == [] then ""
    else if |lines| == 1 then
      LaidOutSingle(lines);
      lines[0]
    else
      LaidOutCons(lines, JoinLines(lines[1..]));
      lines[0] + "\n" + JoinLines(lines[1..])
  }

  /** Where line `i` starts in the joined text: every earlier line and its
      newline come before it. */
  function LineStart(lines: seq<string>, i: nat): nat
    requires i <= |lines|
  {
    if i == 0 then 0 else |lines[0]| + 1 + LineStart(lines[1..], i - 1)
  }

  /** `r` is `lines` one after the other: each line sits at its start, a
      newline follows every line but the last, and nothing else is in `r`. */
  ghost predicate LaidOut(r: string, lines: seq<string>)
  {
    && (lines == [] ==> r == [])
    && (lines != [] ==> |r| + 1 == LineStart(lines, |lines|))
    && (forall i :: 0 <= i < |lines| ==>
          LineStart(lines, i) + |lines[i]| <= |r| && r[LineStart(lines, i)..LineStart(lines, i) + |lines[i]|] == lines[i])
    && (forall i :: 0 <= i < |lines| - 1 ==>
          LineStart(lines, i) + |lines[i]| < |r| && r[LineStart(lines, i) + |lines[i]|] == '\n')
  }

  lemma LaidOutSingle(lines: seq<string>)
    requires |lines| == 1
    ensures LaidOut(lines[0], lines)
  {
    assert LineStart(lines, 1) == |lines[0]| + 1 + LineStart(lines[1..], 0);
  }

  /** Putting a line and a newline in front of the layout of the other lines
      lays out all of them. */
  lemma LaidOutCons(lines: seq<string>, rest: string)
    requires |lines| >= 2 && LaidOut(rest, lines[1..])
    ensures LaidOut(lines[0] + "\n" + rest, lines)
  {
    var tail := lines[1..];
    assert LineStart(lines, |lines|) == |lines[0] + "\n"| + LineStart(tail, |tail|);
    ConsKeepsLines(lines, rest);
    ConsKeepsNewlines(lines, rest);
  }

  lemma ConsKeepsLines(lines: seq<string>, rest: string)
    requires |lines| >= 2 && LaidOut(rest, lines[1..])
    ensures var r := lines[0] + "\n" + rest;
      forall i :: 0 <= i < |lines| ==>
        LineStart(lines, i) + |lines[i]| <= |r| && r[LineStart(lines, i)..LineStart(lines, i) + |lines[i]|] == lines[i]
  {
    var head := lines[0] + "\n";
    var r := head + rest;
    var tail := lines[1..];
    forall i | 0 <= i < |lines|
      ensures LineStart(lines, i) + |lines[i]| <= |r| && r[LineStart(lines, i)..LineStart(lines, i) + |lines[i]|] == lines[i]
    {
      if i == 0 {
        assert r[..|lines[0]|] == lines[0];
      } else {
        var k := LineStart(tail, i - 1);
        assert LineStart(lines, i) == |head| + k;
        assert lines[i] == tail[i - 1];
        SliceAfter(head, rest, k, |lines[i]|);
      }
    }
  }

  lemma ConsKeepsNewlines(lines: seq<string>, rest: string)
    requires |lines| >= 2 && LaidOut(rest, lines[1..])
    ensures var r := lines[0] + "\n" + rest;
      forall i :: 0 <= i < |lines| - 1 ==>
        LineStart(lines, i) + |lines[i]| < |r| && r[LineStart(lines, i) + |lines[i]|] == '\n'
  {
    var head := lines[0] + "\n";
    var r := head + rest;
    var tail := lines[1..];
    forall i | 0 <= i < |lines| - 1
      ensures LineStart(lines, i) + |lines[i]| < |r| && r[LineStart(lines, i) + |lines[i]|] == '\n'
    {
      if i > 0 {
        var k := LineStart(tail, i - 1);
        assert LineStart(lines, i) == |head| + k;
        assert lines[i] == tail[i - 1];
        assert r[|head| + k + |lines[i]|] == rest[k + |tail[i - 1]|];
      }
    }
  }

  lemma SliceAfter(head: string, rest: string, k: nat, n: nat)
    requires k + n <= |rest|
    ensures (head + rest)[|head| + k..|head| + k + n] == rest[k..k + n]
  {
  }

  /** The laid-out text starts with the first line. */
  lemma FirstLine(r: string, lines: seq<string>)
    requires lines != [] && LaidOut(r, lines)
    ensures |r| >= |lines[0]| && r[..|lines[0]|] == lines[0]
  {
    assert LineStart(lines, 0) == 0;
  }

  /** Each line ends before the next one starts: the text keeps the order of
      the lines. */
  lemma {:induction false} LinesInOrder(lines: seq<string>, i: nat, j: nat)
    requires i < j <= |lines|
    ensures LineStart(lines, i) + |lines[i]| < LineStart(lines, j)
  {
    if i > 0 {
      LinesInOrder(lines[1..], i - 1, j - 1);
    }
  }

  /** Text without quotes is quoted as it is. */
  lemma QuoteWithoutQuotes(s: string)
    requires forall i :: 0 <= i < |s| ==> s[i] != '"'
    ensures Quote(s) == "\"" + s + "\""
  {
    EscapeQuotesWithoutQuotes(s);
  }

  /** The header line of the export, `"financial_year","scheme","amount"`. */
  lemma HeaderExample(a: string, b: string, c: string)
    requires a == "financial_year" && b == "scheme" && c == "amount"
    ensures HeaderOf([a, b, c]) == "\"" + a + "\"" + "," + "\"" + b + "\"" + "," + "\"" + c + "\""
  {
    PlainHeaderOfThree(a, b, c);
  }

  /** Three labels without quotes make the header line of those labels, each
      between quotes, separated by commas. */
  lemma PlainHeaderOfThree(a: string, b: string, c: string)
    requires forall i :: 0 <= i < |a| ==> a[i] != '"'
    requires forall i :: 0 <= i < |b| ==> b[i] != '"'
    requires forall i :: 0 <= i < |c| ==> c[i] != '"'
    ensures HeaderOf([a, b, c]) == "\"" + a + "\"" + "," + "\"" + b + "\"" + "," + "\"" + c + "\""
  {
    HeaderOfThree(a, b, c);
    QuoteWithoutQuotes(a);
    QuoteWithoutQuotes(b);
    QuoteWithoutQuotes(c);
    JoinQuoted(Quote(a), Quote(b), Quote(c), a, b, c);
  }

  lemma JoinQuoted(qa: string, qb: string, qc: string, a: string, b: string, c: string)
    requires qa == "\"" + a + "\"" && qb == "\"" + b + "\"" && qc == "\"" + c + "\""
    ensures qa + "," + qb + "," + qc == "\"" + a + "\"" + "," + "\"" + b + "\"" + "," + "\"" + c + "\""
  {
  }

  lemma HeaderOfThree(a: string, b: string, c: string)
    ensures HeaderOf([a, b, c]) == Quote(a) + "," + Quote(b) + "," + Quote(c)
  {
    assert [a, b, c][1..] == [b, c] && [b, c][1..] == [c];
    assert HeaderOf([b, c]) == Quote(b) + "," + Quote(c);
  }

  lemma AmountExamples()
    ensures RenderAmount(20000) == "200"
    ensures RenderAmount(10000) == "100"
    ensures RenderAmount(20050) == "200.5"
    ensures RenderAmount(-5) == "-0.05"
  {
    TwoHundredPounds();
    assert Numeral(1) == "1" && Numeral(10) == Numeral(1) + "0";
    assert Numeral(100) == Numeral(10) + "0";
    assert Fraction(50) == "5" && Fraction(5) == "05";
    assert Numeral(0) == "0";
  }

  lemma TwoHundredPounds()
    ensures Numeral(200) == "200"
    ensures RenderAmount(20000) == "200"
  {
    assert Numeral(2) == "2";
    assert Numeral(20) == Numeral(2) + "0";
    assert Numeral(200) == Numeral(20) + "0";
  }

  /** A row whose year and scheme hold no quotes is those texts, each between
      quotes, and the amount, separated by commas. */
  lemma RowWithoutQuotes(t: SchemeTotal)
    requires forall i :: 0 <= i < |t.financialYear| ==> t.financialYear[i] != '"'
    requires forall i :: 0 <= i < |t.scheme| ==> t.scheme[i] != '"'
    ensures RenderRow(t) == "\"" + t.financialYear + "\",\"" + t.scheme + "\"," + RenderAmount(t.totalAmount)
  {
    QuoteWithoutQuotes(t.financialYear);
    QuoteWithoutQuotes(t.scheme);
  }

  /** A comma stays inside the quoted scheme:
      `"21/22","scheme, with comma",200`. */
  lemma CommaExample(year: string, scheme: string)
    requires year == "21/22" && scheme == "scheme, with comma"
    ensures RenderRow(SchemeTotal(year, scheme, 20000)) == "\"" + year + "\",\"" + scheme + "\",200"
  {
    TwoHundredPounds();
    RowWithoutQuotes(SchemeTotal(year, scheme, 20000));
    assert "\"," + "200" == "\",200";
  }

  /** A quoted word inside text gets both of its quotes doubled. */
  lemma EscapeQuotedWord(before: string, inner: string, after: string)
    requires forall i :: 0 <= i < |before| ==> before[i] != '"'
    requires forall i :: 0 <= i < |inner| ==> inner[i] != '"'
    requires forall i :: 0 <= i < |after| ==> after[i] != '"'
    ensures EscapeQuotes(before + ("\"" + (inner + ("\"" + after)))) == before + ("\"\"" + (inner + ("\"\"" + after)))
  {
    EscapeQuotesWithoutQuotes(before);
    EscapeQuotesWithoutQuotes(inner);
    EscapeQuotesWithoutQuotes(after);
    var q := "\"";
    var qq := "\"\"";
    assert EscapeQuotes(q) == qq;
    var t1 := q + after;
    EscapeQuotesAppend(q, after);
    assert EscapeQuotes(t1) == qq + after;
    var t2 := inner + t1;
    EscapeQuotesAppend(inner, t1);
    assert EscapeQuotes(t2) == inner + (qq + after);
    var t3 := q + t2;
    EscapeQuotesAppend(q, t2);
    assert EscapeQuotes(t3) == qq + (inner + (qq + after));
    var t4 := before + t3;
    EscapeQuotesAppend(before, t3);
    assert EscapeQuotes(t4) == before + (qq + (inner + (qq + after)));
  }

  /** Embedded quotes are doubled: the scheme `scheme "with" quotes` gives
      the row `"21/22","scheme ""with"" quotes",200`. */
  lemma QuotesExample(year: string, before: string, inner: string, after: string)
    requires year == "21/22" && before == "scheme " && inner == "with" && after == " quotes"
    ensures RenderRow(SchemeTotal(year, before + ("\"" + (inner + ("\"" + after))), 20000))
      == "\"" + year + "\"" + "," + "\"" + (before + ("\"\"" + (inner + ("\"\"" + after)))) + "\"" + "," + "200"
  {
    TwoHundredPounds();
    QuoteWithoutQuotes(year);
    EscapeQuotedWord(before, inner, after);
  }
}
