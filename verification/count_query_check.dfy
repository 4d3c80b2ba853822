/** The `--count-query-check` option: the converter that reads
    `"<expected_count>:<count_query>"` into a `CountQueryCheck` record, the
    Neo4j query condition the record becomes, and the record's `toString`. */
module CountQueryChecks {
  import opened Wrappers
  import opened JavaLong

  /** `String.indexOf`: the first position of `c` in `s`, or -1 when `c` does not occur. */
  function IndexOf(s: string, c: char): (r: int)
    ensures -1 <= r < |s|
    ensures r == -1 <==> c !in s
    ensures r >= 0 ==> s[r] == c && c !in s[..r]
  {
    if |s| == 0 then -1
    else if s[0] == c then 0
    else
      var k := IndexOf(s[1..], c);
      assert s[1..][..k + 1] == s[1..k + 2] by {
        if k >= 0 { assert k + 2 <= |s|; }
      }
      if k == -1 then -1 else k + 1
  }

  /** The first occurrence is the only position that holds `c` with no `c` before it. */
  lemma IndexOfIsFirst(s: string, c: char, k: nat)
    requires k < |s| && s[k] == c && c !in s[..k]
    ensures IndexOf(s, c) == k
  {
  }

  /** The message of the `IllegalArgumentException` raised for an input with no separator. */
  const UsageMessage: string :=
    "count queries must be written as: <expected_count>:<count_query> (e.g.: \"42:RETURN 42 AS count\""

  /** What `convert` throws. */
  datatype ConvertError =
    | MissingSeparator(message: string)  // IllegalArgumentException
    | InvalidCount(text: string)         // NumberFormatException from Long.parseLong

  /** The record `CountQueryCheck(long expectedCount, String query)`. */
  datatype CountQueryCheck = CountQueryCheck(expectedCount: int64, query: string)

  /** `CountQueryCheckConverter.convert`: split at the first `:`, read the
      part before it as a base-10 `long` and keep everything after it,
      further colons included, as the query. */
  function Convert(value: string): (r: Result<CountQueryCheck, ConvertError>)
    ensures ':' !in value <==> r == Failure(MissingSeparator(UsageMessage))
    ensures r.Success? ==>
      var q := r.value.query;
      var cut := |value| - |q| - 1;
      && 0 <= cut
      && value[cut] == ':'
      && value[cut + 1..] == q
      && ':' !in value[..cut]
      && ParseLong(value[..cut]) == Some(r.value.expectedCount)
    ensures r.Failure? && r.error.InvalidCount? ==>
      var cut := |r.error.text|;
      && cut < |value|
      && value[..cut] == r.error.text
      && value[cut] == ':'
      && ':' !in r.error.text
      && ParseLong(r.error.text) == None
  {
    var index := IndexOf(value, ':');
    if index == -1 then Failure(MissingSeparator(UsageMessage))
    else
      var prefix := value[..index];
      match ParseLong(prefix)
      case None => Failure(InvalidCount(prefix))
      case Some(n) => Success(CountQueryCheck(n, value[index + 1..]))
  }

  /** The text before the first colon decides the count, the text after it
      is the query, whatever the query contains. */
  lemma ConvertSplitsAtFirstColon(prefix: string, query: string)
    requires ':' !in prefix
    ensures Convert(prefix + ":" + query) ==
      match ParseLong(prefix)
      case None => Failure(InvalidCount(prefix))
      case Some(n) => Success(CountQueryCheck(n, query))
  {
    var value := prefix + ":" + query;
    IndexOfIsFirst(value, ':', |prefix|);
    assert value[..|prefix|] == prefix;
    assert value[|prefix| + 1..] == query;
  }

  /** Writing a count and a query in the option's syntax and converting it
      gives back that count and that query. */
  lemma ConvertRoundTrip(n: int64, query: string)
    ensures Convert(DecimalString(n) + ":" + query) == Success(CountQueryCheck(n, query))
  {
    ParseDecimalString(n);
    ConvertSplitsAtFirstColon(DecimalString(n), query);
  }

  /** A missing count, as in ":RETURN 1", is not a number. */
  lemma ConvertRejectsEmptyCount(query: string)
    ensures Convert(":" + query) == Failure(InvalidCount(""))
  {
  }

  /** A count with a character that is neither a digit nor a leading sign is rejected. */
  lemma ConvertRejectsNonDigitCount(prefix: string, i: nat, query: string)
    requires ':' !in prefix
    requires i < |prefix| && !IsDigit(prefix[i]) && (i > 0 || !IsSign(prefix[i]))
    ensures Convert(prefix + ":" + query) == Failure(InvalidCount(prefix))
  {
    ParseLongRejectsNonDigit(prefix, i);
    ConvertSplitsAtFirstColon(prefix, query);
  }

  /** A count outside the range of `long` is rejected. */
  lemma ConvertRejectsOutOfRangeCount(sign: string, digits: string, query: string)
    requires sign == "" || sign == "+" || sign == "-"
    requires |digits| > 0 && AllDigits(digits)
    requires sign == "-" ==> DigitsValue(digits) > -MinLong
    requires sign != "-" ==> DigitsValue(digits) > MaxLong
    ensures Convert(sign + digits + ":" + query) == Failure(InvalidCount(sign + digits))
  {
    ParseLongRejectsOutOfRange(sign, digits);
    SignedDigitsHaveNoColon(sign, digits);
    ConvertRejectsUnparsableCount(sign + digits, query);
  }

  lemma SignedDigitsHaveNoColon(sign: string, digits: string)
    requires sign == "" || sign == "+" || sign == "-"
    requires AllDigits(digits)
    ensures ':' !in sign + digits
  {
  }

  /** Whenever the text before the first colon is not a `long`, the
      conversion fails with that text. */
  lemma ConvertRejectsUnparsableCount(prefix: string, query: string)
    requires ':' !in prefix
    requires ParseLong(prefix) == None
    ensures Convert(prefix + ":" + query) == Failure(InvalidCount(prefix))
  {
    ConvertSplitsAtFirstColon(prefix, query);
  }

  // ---------------------------------------------------------------------
  // The runnable condition
  // ---------------------------------------------------------------------

  /** The column a count query must return. */
  const CountColumn: string := "count"

  /** A `Neo4jQueryCheck`: a Cypher query and the rows it is expected to return. */
  datatype QueryCheck = QueryCheck(query: string, expectedResult: seq<map<string, int>>)

  /** `asRunnableCondition`: the record's query, expected to return exactly
      one row whose only column `count` holds the expected count. */
  function AsRunnableCondition(c: CountQueryCheck): (r: QueryCheck)
    ensures r.query == c.query
    ensures |r.expectedResult| == 1
    ensures r.expectedResult[0].Keys == {CountColumn}
    ensures r.expectedResult[0][CountColumn] == c.expectedCount
  {
    QueryCheck(c.query, [map[CountColumn := c.expectedCount as int]])
  }

  /** A query check holds when the query returned exactly the expected rows. */
  predicate Satisfied(check: QueryCheck, rows: seq<map<string, int>>) {
    rows == check.expectedResult
  }

  /** The condition built from a count-query check passes exactly when the
      query returns one row, with the single column `count`, equal to the
      expected count: `{count: 41}` or no rows at all fail an expected 42. */
  lemma CountConditionPassesIff(c: CountQueryCheck, rows: seq<map<string, int>>)
    ensures Satisfied(AsRunnableCondition(c), rows) <==>
      |rows| == 1 && rows[0].Keys == {CountColumn} && rows[0][CountColumn] == c.expectedCount
  {
    var expected := AsRunnableCondition(c).expectedResult;
    if |rows| == 1 && rows[0].Keys == {CountColumn} && rows[0][CountColumn] == c.expectedCount {
      assert rows[0] == expected[0];
      assert rows == expected;
    }
  }

  /** Two count-query checks yield the same condition only if they are the same check. */
  lemma RunnableConditionDeterminesCheck(a: CountQueryCheck, b: CountQueryCheck)
    requires AsRunnableCondition(a) == AsRunnableCondition(b)
    ensures a == b
  {
  }

  // ---------------------------------------------------------------------
  // toString
  // ---------------------------------------------------------------------

  const ToStringHead: string := "CountQueryCheck{expectedCount="
  const ToStringMiddle: string := ", countQuery='"
  const ToStringTail: string := "'}"

  /** The record's `toString`: `CountQueryCheck{expectedCount=<n>, countQuery='<query>'}`. */
  function ToString(c: CountQueryCheck): (r: string)
    ensures |ToStringHead| < |r| && r[..|ToStringHead|] == ToStringHead
    ensures r[|r| - |ToStringTail|..] == ToStringTail
  {
    ToStringHead + DecimalString(c.expectedCount) + ToStringMiddle + c.query + ToStringTail
  }

  /** When two texts agree and each is a comma-free head followed by the
      same separator starting with a comma, heads and tails agree too. */
  lemma SplitAtFirstComma(h1: string, t1: string, h2: string, t2: string, sep: string)
    requires ',' !in h1 && ',' !in h2
    requires |sep| > 0 && sep[0] == ','
    requires h1 + sep + t1 == h2 + sep + t2
    ensures h1 == h2 && t1 == t2
  {
    var s := h1 + sep + t1;
    assert h1 == s[..|h1|] && s[|h1|] == ',';
    assert h2 == s[..|h2|] && s[|h2|] == ',';
    IndexOfIsFirst(s, ',', |h1|);
    IndexOfIsFirst(s, ',', |h2|);
    assert t1 == s[|h1| + |sep|..];
    assert t2 == s[|h2| + |sep|..];
  }

  lemma ToStringShape(c: CountQueryCheck)
    ensures ToString(c) == ToStringHead + (DecimalString(c.expectedCount) + ToStringMiddle + c.query) + ToStringTail
  {
  }

  lemma DecimalHasOnlyDigitsAndMinus(n: int, c: char)
    requires !IsDigit(c) && c != '-'
    ensures c !in DecimalString(n)
  {
  }

  lemma StripAffixes(head: string, x: string, y: string, tail: string)
    requires head + x + tail == head + y + tail
    ensures x == y
  {
    var s := head + x + tail;
    assert x == s[|head|..|s| - |tail|];
    assert y == s[|head|..|s| - |tail|];
  }

  /** The text `toString` prints identifies the record: the count ends at
      the first comma and the query sits between the fixed middle and tail,
      even when the query itself holds commas or quotes. */
  lemma ToStringInjective(a: CountQueryCheck, b: CountQueryCheck)
    requires ToString(a) == ToString(b)
    ensures a == b
  {
    var da, db := DecimalString(a.expectedCount), DecimalString(b.expectedCount);
    var ra := da + ToStringMiddle + a.query;
    var rb := db + ToStringMiddle + b.query;
    ToStringShape(a);
    ToStringShape(b);
    DecimalHasOnlyDigitsAndMinus(a.expectedCount, ',');
    DecimalHasOnlyDigitsAndMinus(b.expectedCount, ',');
    StripAffixes(ToStringHead, ra, rb, ToStringTail);
    SplitAtFirstComma(da, a.query, db, b.query, ToStringMiddle);
    ParseDecimalString(a.expectedCount);
    ParseDecimalString(b.expectedCount);
  }
}
