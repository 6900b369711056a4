/**
 * The text form in which the client sends a board to the puzzle server
 * (prolog.py, to_array_string): the integers in order, written in decimal,
 * separated by commas and enclosed in brackets, as in `[1,2,0]`. Beside it,
 * a reader for that form, the inverse against which the writer is proved.
 */
module Wire {

  import opened Options

  predicate IsDigit(c: char)
  {
    '0' <= c <= '9'
  }

  function DigitChar(d: nat): (c: char)
    requires d < 10
    ensures IsDigit(c) && c as int - '0' as int == d
  {
    ('0' as int + d) as char
  }

  /** Decimal digits of a natural number, most significant first, without leading zeros. */
  function NatToDecimal(n: nat): (s: string)
    ensures |s| >= 1
    ensures forall k :: 0 <= k < |s| ==> IsDigit(s[k])
    ensures s[0] == '0' <==> n == 0
    ensures n == 0 ==> s == "0"
    decreases n
  {
    if n < 10 then [DigitChar(n)] else NatToDecimal(n / 10) + [DigitChar(n % 10)]
  }

  /** Python's `str` on an integer: a minus sign before the digits of a negative number. */
  function IntToDecimal(x: int): (s: string)
    ensures |s| >= 1 && ',' !in s
    ensures s[0] == '-' <==> x < 0
  {
    if x < 0 then "-" + NatToDecimal(-x) else NatToDecimal(x)
  }

  /**
   * The elements' decimal forms joined by commas: a comma goes before every
   * element but the first.
   */
  function Join(xs: seq<int>): string
  {
    if |xs| == 0 then ""
    else if |xs| == 1 then IntToDecimal(xs[0])
    else Join(xs[..|xs| - 1]) + "," + IntToDecimal(xs[|xs| - 1])
  }

  /** The whole text sent for a board. */
  function Render(xs: seq<int>): string
  {
    "[" + Join(xs) + "]"
  }

  /**
   * to_array_string: open a bracket, then for each element append a comma
   * (except before the first) and the element's decimal form, then close
   * the bracket.
   */
  method ToArrayString(board: seq<int>) returns (res: string)
    ensures res == Render(board)
  {
    res := "[";
    for i := 0 to |board|
      invariant res == "[" + Join(board[..i])
    {
      var sep := if i != 0 then "," else "";
      res := res + sep + IntToDecimal(board[i]);
      JoinPrefixStep(board, i);
    }
    assert board[..|board|] == board;
    res := res + "]";
  }

  /** The text for the first i + 1 elements extends the text for the first i. */
  lemma JoinPrefixStep(xs: seq<int>, i: nat)
    requires i < |xs|
    ensures Join(xs[..i + 1]) == Join(xs[..i]) + (if i != 0 then "," else "") + IntToDecimal(xs[i])
  {
    var prefix := xs[..i];
    assert xs[..i + 1] == prefix + [xs[i]];
    assert prefix == [] <==> i == 0;
    JoinSnoc(prefix, xs[i]);
  }

  /** Adding an element adds a comma (unless it is the first) and its decimal form. */
  lemma {:induction false} JoinSnoc(xs: seq<int>, x: int)
    ensures Join(xs + [x]) == if xs == [] then IntToDecimal(x) else Join(xs) + "," + IntToDecimal(x)
  {
    assert (xs + [x])[..|xs|] == xs;
  }

  /** The text always opens and closes with a bracket; the empty board is `[]`. */
  lemma RenderBrackets(xs: seq<int>)
    ensures |Render(xs)| >= 2 && Render(xs)[0] == '[' && Render(xs)[|Render(xs)| - 1] == ']'
    ensures xs == [] <==> Render(xs) == "[]"
  {
    if xs != [] {
      JoinNonEmpty(xs);
    }
  }

  lemma JoinNonEmpty(xs: seq<int>)
    requires xs != []
    ensures |Join(xs)| >= 1
  {
  }

  // ---------------------------------------------------------------- counting

  function Count(s: string, c: char): nat
  {
    if s == [] then 0 else Count(s[..|s| - 1], c) + (if s[|s| - 1] == c then 1 else 0)
  }

  lemma {:induction false} CountAppend(a: string, b: string, c: char)
    ensures Count(a + b, c) == Count(a, c) + Count(b, c)
    decreases |b|
  {
    if b != [] {
      var b' := b[..|b| - 1];
      assert (a + b)[..|a + b| - 1] == a + b';
      CountAppend(a, b', c);
    } else {
      assert a + b == a;
    }
  }

  lemma {:induction false} CountAbsent(s: string, c: char)
    requires c !in s
    ensures Count(s, c) == 0
    decreases |s|
  {
    if s != [] {
      CountAbsent(s[..|s| - 1], c);
    }
  }

  /** There is one comma fewer than elements, and none for the empty board. */
  lemma {:induction false} CommaCount(xs: seq<int>)
    ensures Count(Render(xs), ',') == if xs == [] then 0 else |xs| - 1
    decreases |xs|
  {
    JoinCommas(xs);
    CountAppend("[" + Join(xs), "]", ',');
    CountAppend("[", Join(xs), ',');
  }

  lemma {:induction false} JoinCommas(xs: seq<int>)
    ensures Count(Join(xs), ',') == if xs == [] then 0 else |xs| - 1
    decreases |xs|
  {
    if |xs| == 1 {
      CountAbsent(IntToDecimal(xs[0]), ',');
    } else if |xs| > 1 {
      var init, last := xs[..|xs| - 1], IntToDecimal(xs[|xs| - 1]);
      JoinCommas(init);
      CountAppend(Join(init) + ",", last, ',');
      CountAppend(Join(init), ",", ',');
      CountAbsent(last, ',');
    }
  }

  // ------------------------------------------------------------------ length

  function DigitLengths(xs: seq<int>): nat
  {
    if xs == [] then 0 else DigitLengths(xs[..|xs| - 1]) + |IntToDecimal(xs[|xs| - 1])|
  }

  /** Two brackets, every element's decimal form, and the commas between them. */
  lemma {:induction false} RenderLength(xs: seq<int>)
    ensures |Render(xs)| == 2 + DigitLengths(xs) + (if xs == [] then 0 else |xs| - 1)
  {
    JoinLength(xs);
  }

  lemma {:induction false} JoinLength(xs: seq<int>)
    ensures |Join(xs)| == DigitLengths(xs) + (if xs == [] then 0 else |xs| - 1)
    decreases |xs|
  {
    if |xs| == 1 {
      assert xs[..0] == [];
    } else if |xs| > 1 {
      JoinLength(xs[..|xs| - 1]);
    }
  }

  // ----------------------------------------------------------------- reading

  /** Python's `str.split(",")`: the pieces between commas, `[""]` for the empty text. */
  function Split(s: string): (parts: seq<string>)
    ensures |parts| >= 1
  {
    if s == [] then [[]]
    else
      var rest := Split(s[..|s| - 1]);
      var c := s[|s| - 1];
      if c == ',' then rest + [[]]
      else rest[..|rest| - 1] + [rest[|rest| - 1] + [c]]
  }

  /** Value of a string of decimal digits. */
  function DecimalValue(s: string): nat
    requires forall k :: 0 <= k < |s| ==> IsDigit(s[k])
  {
    if s == [] then 0
    else
      assert IsDigit(s[|s| - 1]);
      DecimalValue(s[..|s| - 1]) * 10 + (s[|s| - 1] as int - '0' as int)
  }

  /** An optional minus sign followed by at least one digit. */
  function ParseInt(s: string): Option<int>
  {
    if |s| >= 1 && s[0] == '-' then
      var digits := s[1..];
      if |digits| >= 1 && forall k :: 0 <= k < |digits| ==> IsDigit(digits[k])
      then Some(0 - DecimalValue(digits) as int) else None
    else if |s| >= 1 && forall k :: 0 <= k < |s| ==> IsDigit(s[k]) then Some(DecimalValue(s))
    else None
  }

  function ParseAll(parts: seq<string>): Option<seq<int>>
  {
    if parts == [] then Some([])
    else
      match (ParseInt(parts[0]), ParseAll(parts[1..]))
      case (Some(x), Some(rest)) => Some([x] + rest)
      case _ => None
  }

  /** Reads a bracketed, comma-separated list of integers back. */
  function ParseArray(text: string): Option<seq<int>>
  {
    if |text| < 2 || text[0] != '[' || text[|text| - 1] != ']' then None
    else
      var inner := text[1..|text| - 1];
      if inner == [] then Some([]) else ParseAll(Split(inner))
  }

  /** Reading back the decimal form of a natural number gives the number. */
  lemma {:induction false} NatDecimalRoundTrip(n: nat)
    ensures DecimalValue(NatToDecimal(n)) == n
    decreases n
  {
    if n >= 10 {
      var s := NatToDecimal(n);
      assert s[..|s| - 1] == NatToDecimal(n / 10);
      NatDecimalRoundTrip(n / 10);
    }
  }

  /** Python's `str` and `int` are inverse on integers. */
  lemma {:induction false} IntDecimalRoundTrip(x: int)
    ensures ParseInt(IntToDecimal(x)) == Some(x)
  {
    var s := IntToDecimal(x);
    var n := if x < 0 then -x else x;
    var digits := NatToDecimal(n);
    NatDecimalRoundTrip(n);
    if x < 0 {
      assert s == "-" + digits;
      assert s[1..] == digits;
    } else {
      assert s == digits;
      assert IsDigit(s[0]);
    }
  }

  /** Decimal forms of the elements, in order. */
  function Decimals(xs: seq<int>): (ds: seq<string>)
    ensures |ds| == |xs|
  {
    seq(|xs|, k requires 0 <= k < |xs| => IntToDecimal(xs[k]))
  }

  /** Appending text without commas extends the last piece. */
  lemma {:induction false} SplitAppendWord(s: string, w: string)
    requires ',' !in w
    ensures Split(s + w) == Split(s)[..|Split(s)| - 1] + [Split(s)[|Split(s)| - 1] + w]
    decreases |w|
  {
    if w == [] {
      var parts := Split(s);
      assert s + w == s;
      assert parts[|parts| - 1] + w == parts[|parts| - 1];
      assert parts[..|parts| - 1] + [parts[|parts| - 1]] == parts;
    } else {
      var w' := w[..|w| - 1];
      assert (s + w)[..|s + w| - 1] == s + w';
      assert (s + w)[|s + w| - 1] == w[|w| - 1] != ',';
      var c := w[|w| - 1];
      assert w' + [c] == w;
      SplitAppendWord(s, w');
      var parts := Split(s);
      var rest := Split(s + w');
      assert rest[..|rest| - 1] == parts[..|parts| - 1];
      assert rest[|rest| - 1] + [c] == parts[|parts| - 1] + w;
    }
  }

  /** A comma starts a new, empty piece. */
  lemma SplitComma(s: string)
    ensures Split(s + ",") == Split(s) + [[]]
  {
    assert (s + ",")[..|s + ","| - 1] == s;
  }

  lemma DecimalsSnoc(xs: seq<int>)
    requires xs != []
    ensures Decimals(xs) == Decimals(xs[..|xs| - 1]) + [IntToDecimal(xs[|xs| - 1])]
  {
  }

  /** Splitting the joined text gives back the decimal forms. */
  lemma {:induction false} SplitJoin(xs: seq<int>)
    requires xs != []
    ensures Split(Join(xs)) == Decimals(xs)
    decreases |xs|
  {
    if |xs| == 1 {
      var d := IntToDecimal(xs[0]);
      SplitAppendWord([], d);
      assert [] + d == d;
      assert Decimals(xs) == [d];
    } else {
      var init, last := xs[..|xs| - 1], IntToDecimal(xs[|xs| - 1]);
      var prefix := Join(init) + ",";
      SplitJoin(init);
      SplitComma(Join(init));
      SplitAppendWord(prefix, last);
      assert [] + last == last;
      assert Split(prefix + last) == Decimals(init) + [last];
      DecimalsSnoc(xs);
    }
  }

  lemma {:induction false} ParseAllDecimals(xs: seq<int>)
    ensures ParseAll(Decimals(xs)) == Some(xs)
    decreases |xs|
  {
    if xs != [] {
      assert Decimals(xs)[1..] == Decimals(xs[1..]);
      IntDecimalRoundTrip(xs[0]);
      ParseAllDecimals(xs[1..]);
      assert [xs[0]] + xs[1..] == xs;
    }
  }

  /** Reading the text written for a board gives back the board. */
  lemma {:induction false} RenderRoundTrip(xs: seq<int>)
    ensures ParseArray(Render(xs)) == Some(xs)
  {
    var text := Render(xs);
    assert text[1..|text| - 1] == Join(xs);
    if xs != [] {
      JoinNonEmpty(xs);
      SplitJoin(xs);
      ParseAllDecimals(xs);
    }
  }
}
