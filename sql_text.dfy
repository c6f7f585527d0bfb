/**
 * The text of the statements the queue builds. Numbers are written the way
 * Go's strconv.Itoa and the %d verb write them, and each piece of text that
 * carries a value is shown to carry it: reading the text back gives the value.
 */
module SqlText {
  import opened Wrappers
  import opened Jobs
  import Table

  predicate IsDigit(c: char)
  {
    '0' <= c <= '9'
  }

  predicate AllDigits(s: string)
  {
    forall i :: 0 <= i < |s| ==> IsDigit(s[i])
  }

  function DigitChar(d: nat): (c: char)
    requires d < 10
    ensures IsDigit(c) && c as int - '0' as int == d
  {
    ('0' as int + d) as char
  }

  /** The decimal digits of n, most significant first, without leading zeros. */
  function NatString(n: nat): (s: string)
    ensures s != [] && AllDigits(s)
  {
    if n < 10 then [DigitChar(n)] else NatString(n / 10) + [DigitChar(n % 10)]
  }

  /** strconv.Itoa(n), and fmt's %d: a '-' for negative numbers, then the digits. */
  function DecimalString(n: int): (s: string)
    ensures forall i :: 0 <= i < |s| ==> IsDigit(s[i]) || s[i] == '-'
  {
    if n < 0 then "-" + NatString(-n) else NatString(n)
  }

  function ParseNat(s: string): int
    requires AllDigits(s)
  {
    if s == [] then 0 else 10 * ParseNat(s[..|s| - 1]) + (s[|s| - 1] as int - '0' as int)
  }

  /** How the store reads an integer literal: an optional '-' and at least one digit. */
  function ParseDecimal(s: string): Option<int>
  {
    if |s| > 1 && s[0] == '-' && AllDigits(s[1..]) then Some(-ParseNat(s[1..]))
    else if s != [] && AllDigits(s) then Some(ParseNat(s))
    else None
  }

  lemma {:induction false} NatStringRoundTrip(n: nat)
    ensures ParseNat(NatString(n)) == n
  {
    if n >= 10 {
      var s := NatString(n);
      assert s[..|s| - 1] == NatString(n / 10);
      NatStringRoundTrip(n / 10);
    }
  }

  /** Every integer the program writes into a statement reads back as itself. */
  lemma DecimalRoundTrip(n: int)
    ensures ParseDecimal(DecimalString(n)) == Some(n)
  {
    if n < 0 {
      assert DecimalString(n)[1..] == NatString(-n);
      NatStringRoundTrip(-n);
    } else {
      NatStringRoundTrip(n);
    }
  }

  /** One VALUES item, `("%s", %d)`: the description spliced between double quotes. */
  function ItemText(v: Value): string
  {
    "(\"" + v.description + "\", " + DecimalString(v.priority) + ")"
  }

  /** The first occurrence of `c` at or after `from`, or |s| when there is none. */
  function IndexFrom(s: string, c: char, from: nat): (k: nat)
    requires from <= |s|
    ensures from <= k <= |s|
    ensures forall i :: from <= i < k ==> s[i] != c
    ensures k < |s| ==> s[k] == c
    decreases |s| - from
  {
    if from == |s| || s[from] == c then from else IndexFrom(s, c, from + 1)
  }

  /** How the store reads one VALUES item: a string literal, a comma, an integer literal. */
  function ParseItem(s: string): Option<Value>
  {
    if |s| < 2 || s[..2] != "(\"" then None
    else
      var q := IndexFrom(s, '"', 2);
      if q + 3 >= |s| || s[q..q + 3] != "\", " || s[|s| - 1] != ')' then None
      else
        match ParseDecimal(s[q + 3..|s| - 1])
        case None => None
        case Some(p) => Some(Value(s[2..q], p))
  }

  /**
   * An item reads back as the description and priority it was built from,
   * provided the description holds no double quote (one that does ends the
   * string literal early: the text is then not the item it was meant to be).
   */
  lemma ItemRoundTrip(v: Value)
    requires '"' !in v.description
    ensures ParseItem(ItemText(v)) == Some(v)
  {
    var s := ItemText(v);
    var d := v.description;
    var n := DecimalString(v.priority);
    assert s[..2] == "(\"";
    assert forall i :: 2 <= i < 2 + |d| ==> s[i] == d[i - 2];
    assert s[2 + |d|] == '"';
    var q := IndexFrom(s, '"', 2);
    assert q == 2 + |d|;
    assert s[q..q + 3] == "\", ";
    assert s[2..q] == d;
    assert s[q + 3..|s| - 1] == n;
    DecimalRoundTrip(v.priority);
  }

  function Join(items: seq<string>, sep: string): string
  {
    if items == [] then ""
    else if |items| == 1 then items[0]
    else items[0] + sep + Join(items[1..], sep)
  }

  const InsertPrefix := "\n\t\tINSERT INTO " + JobTableName + " (description, priority)\n\t\tVALUES "
  const InsertSuffix := "\n\t\t;"

  /** The batch INSERT: the items joined by ",". */
  function InsertText(values: seq<Value>): string
  {
    InsertPrefix + Join(Table.Map(ItemText, values), ",") + InsertSuffix
  }

  /** The string the INSERT builder returns: empty exactly when it failed. */
  function Text(q: Query): (t: string)
    ensures t == "" <==> q.NoQuery?
  {
    match q
    case NoQuery => ""
    case Insert(values) => InsertText(values)
  }

  /** How the store reads a VALUES list: items separated by ",". */
  function ParseValues(s: string): Option<seq<Value>>
    decreases |s|
  {
    if s == [] then Some([])
    else if |s| < 2 || s[..2] != "(\"" then None
    else
      var e := IndexFrom(s, ')', IndexFrom(s, '"', 2));
      if e == |s| then None
      else
        match ParseItem(s[..e + 1])
        case None => None
        case Some(v) =>
          if e + 1 == |s| then Some([v])
          else if s[e + 1] == ',' && e + 2 < |s| then
            match ParseValues(s[e + 2..])
            case None => None
            case Some(vs) => Some([v] + vs)
          else None
  }

  /** How the store reads the batch INSERT: the fixed frame around a VALUES list. */
  function ParseInsert(t: string): Option<seq<Value>>
  {
    if |t| >= |InsertPrefix| + |InsertSuffix| && t[..|InsertPrefix|] == InsertPrefix
       && t[|t| - |InsertSuffix|..] == InsertSuffix
    then ParseValues(t[|InsertPrefix|..|t| - |InsertSuffix|])
    else None
  }

  /** An item followed by more text ends at its own closing parenthesis. */
  lemma ItemEnds(v: Value, rest: string)
    requires '"' !in v.description
    ensures var s := ItemText(v) + rest;
            |s| >= 2 && s[..2] == "(\""
            && IndexFrom(s, ')', IndexFrom(s, '"', 2)) == |ItemText(v)| - 1
            && s[..|ItemText(v)|] == ItemText(v)
  {
    var s := ItemText(v) + rest;
    var d := v.description;
    var n := DecimalString(v.priority);
    assert ItemText(v) == "(\"" + d + "\", " + n + ")";
    assert forall i :: 2 <= i < 2 + |d| ==> s[i] == d[i - 2];
    assert s[2 + |d|] == '"';
    var q := IndexFrom(s, '"', 2);
    assert q == 2 + |d|;
    var e := IndexFrom(s, ')', q);
    assert s[q] == '"' && s[q + 1] == ',' && s[q + 2] == ' ';
    assert forall i :: q + 3 <= i < q + 3 + |n| ==> s[i] == n[i - q - 3];
    assert s[q + 3 + |n|] == ')';
    assert e == |ItemText(v)| - 1;
  }

  /** A single item is a VALUES list of one. */
  lemma ParseOne(v: Value)
    requires '"' !in v.description
    ensures ParseValues(ItemText(v)) == Some([v])
  {
    ItemEnds(v, "");
    assert ItemText(v) + "" == ItemText(v);
    ItemRoundTrip(v);
  }

  /** An item, a comma and a list read as that item in front of the list. */
  lemma ParseCons(v: Value, rest: string)
    requires '"' !in v.description && rest != []
    ensures ParseValues(rest).Some? ==>
              ParseValues(ItemText(v) + "," + rest) == Some([v] + ParseValues(rest).value)
  {
    var item := ItemText(v);
    var s := item + "," + rest;
    assert s == item + ("," + rest);
    ItemEnds(v, "," + rest);
    var e := IndexFrom(s, ')', IndexFrom(s, '"', 2));
    assert e + 1 == |item|;
    ItemRoundTrip(v);
    assert ParseItem(s[..e + 1]) == Some(v);
    assert s[e + 1] == ',' && e + 2 < |s|;
    assert s[e + 2..] == rest;
  }

  /**
   * A VALUES list reads back as the values it was built from, provided no
   * description holds a double quote.
   */
  lemma {:induction false} ValuesRoundTrip(values: seq<Value>)
    requires forall i :: 0 <= i < |values| ==> '"' !in values[i].description
    ensures ParseValues(Join(Table.Map(ItemText, values), ",")) == Some(values)
    decreases |values|
  {
    if |values| == 1 {
      assert Join(Table.Map(ItemText, values), ",") == ItemText(values[0]);
      ParseOne(values[0]);
      assert [values[0]] == values;
    } else if values != [] {
      var items := Table.Map(ItemText, values);
      assert items[1..] == Table.Map(ItemText, values[1..]);
      var rest := Join(items[1..], ",");
      assert |rest| > 0 by { assert |items[1]| > 0; }
      assert Join(items, ",") == ItemText(values[0]) + "," + rest;
      ValuesRoundTrip(values[1..]);
      ParseCons(values[0], rest);
      assert [values[0]] + values[1..] == values;
    }
  }

  /**
   * The batch INSERT the builder returns reads back as exactly the values
   * it was built from, provided no description holds a double quote.
   */
  lemma InsertRoundTrip(values: seq<Value>)
    requires forall i :: 0 <= i < |values| ==> '"' !in values[i].description
    ensures ParseInsert(Text(Insert(values))) == Some(values)
  {
    var list := Join(Table.Map(ItemText, values), ",");
    assert Text(Insert(values)) == InsertPrefix + list + InsertSuffix;
    ParseFrame(list);
    ValuesRoundTrip(values);
  }

  /** The INSERT frame is read off, leaving the VALUES list inside it. */
  lemma ParseFrame(list: string)
    ensures ParseInsert(InsertPrefix + list + InsertSuffix) == ParseValues(list)
  {
    var t := InsertPrefix + list + InsertSuffix;
    assert t[..|InsertPrefix|] == InsertPrefix;
    assert t[|t| - |InsertSuffix|..] == InsertSuffix;
    assert t[|InsertPrefix|..|t| - |InsertSuffix|] == list;
  }

  /** The projection shared by every job query: all four columns, in Job's field order. */
  function SelectJobQuery(): string
  {
    "\n\t\tSELECT id, description, priority, finished_at\n\t\tFROM " + JobTableName + "\n\t\t"
  }

  /** A WHERE clause comparing `column` with the literal `value`. */
  function WhereSelectJobQuery(column: string, value: string): string
  {
    "\n\t\tWHERE " + column + " = " + value + "\n\t\t"
  }

  const Asc := "ASC"
  const Desc := "DESC"
  const OrderPrefix := "\n\t\t\tORDER by priority "
  const OrderSuffix := "\n\t\t\t"

  /** The ORDER BY clause on priority; its direction keyword is ASC exactly when `asc`. */
  function OrderByPriority(asc: bool): (r: string)
    ensures |r| > |OrderPrefix| + |OrderSuffix|
    ensures r[..|OrderPrefix|] == OrderPrefix && r[|r| - |OrderSuffix|..] == OrderSuffix
    ensures r[|OrderPrefix|..|r| - |OrderSuffix|] == Asc <==> asc
    ensures r[|OrderPrefix|..|r| - |OrderSuffix|] in {Asc, Desc}
  {
    var order := if asc then Asc else Desc;
    OrderPrefix + order + OrderSuffix
  }

  /** The lookup text of getJobById: the projection and `WHERE id = <id>`. */
  function ByIdQuery(id: int): string
  {
    SelectJobQuery() + WhereSelectJobQuery("id", DecimalString(id))
  }

  /** The listing text of getAllJobs: the projection in ascending priority order. */
  function ListingQuery(): string
  {
    SelectJobQuery() + OrderByPriority(true)
  }

  const WhereIdPrefix := "\n\t\tWHERE id = "

  /** The lookup text compares the id column with a literal that reads back as exactly `id`. */
  lemma ByIdQueryNamesId(id: int)
    ensures var q := ByIdQuery(id);
            var start := |SelectJobQuery()| + |WhereIdPrefix|;
            start <= |q| - 3
            && q[..start] == SelectJobQuery() + WhereIdPrefix
            && q[|q| - 3..] == "\n\t\t"
            && ParseDecimal(q[start..|q| - 3]) == Some(id)
  {
    var q := ByIdQuery(id);
    var start := |SelectJobQuery()| + |WhereIdPrefix|;
    assert q == SelectJobQuery() + WhereIdPrefix + DecimalString(id) + "\n\t\t";
    assert q[start..|q| - 3] == DecimalString(id);
    DecimalRoundTrip(id);
  }
}
