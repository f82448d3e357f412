/**
 The language of the db file: what the parser accepts, how the accepted text
 decomposes, and a printer for the documented form.
 */
module DbGrammar {
  import opened Decimals
  import opened Wire
  import opened Wrappers

  datatype Entry = Entry(latitude: int32, longitude: int32, name: string)

  // ----------------------------------------------------------------- spaces

  predicate IsSpace(c: char) {
    c == ' ' || 9 <= c as int <= 13
  }

  /** The text without its white space. */
  function Strip(s: string): string {
    if s == [] then []
    else if IsSpace(s[0]) then Strip(s[1..])
    else [s[0]] + Strip(s[1..])
  }

  lemma {:induction false} StripConcat(a: string, b: string)
    ensures Strip(a + b) == Strip(a) + Strip(b)
  {
    if a == [] {
      assert a + b == b;
    } else {
      assert (a + b)[1..] == a[1..] + b;
      StripConcat(a[1..], b);
    }
  }

  lemma {:induction false} StripIdempotent(s: string)
    ensures Strip(Strip(s)) == Strip(s)
  {
    if s != [] {
      StripIdempotent(s[1..]);
      if !IsSpace(s[0]) {
        assert Strip(s)[1..] == Strip(s[1..]);
      }
    }
  }

  // ---------------------------------------------------------------- numbers

  datatype LongError = InvalidArgument | OutOfRange

  datatype LongResult = Long(value: int) | Error(error: LongError)

  const LONG_MIN := -0x8000_0000_0000_0000
  const LONG_MAX := 0x7FFF_FFFF_FFFF_FFFF

  function Digits(s: string): nat
    ensures Digits(s) <= |s|
  {
    if s == [] || !IsDigit(s[0]) then 0 else 1 + Digits(s[1..])
  }

  lemma {:induction false} DigitsAreDigits(s: string)
    ensures forall c | c in s[..Digits(s)] :: IsDigit(c)
  {
    if s != [] && IsDigit(s[0]) {
      DigitsAreDigits(s[1..]);
      assert s[..Digits(s)] == [s[0]] + s[1..][..Digits(s[1..])];
    }
  }

  function SignLength(s: string): nat
    ensures SignLength(s) <= |s|
  {
    if s != [] && (s[0] == '+' || s[0] == '-') then 1 else 0
  }

  /** `std::stol` on text without spaces: a sign, digits, and anything after them. */
  function Stol(s: string): LongResult {
    var t := s[SignLength(s)..];
    DigitsAreDigits(t);
    var digits := t[..Digits(t)];
    if digits == [] then Error(InvalidArgument)
    else
      var d: int := DigitsValue(digits);
      var n := if s[0] == '-' then -d else d;
      if LONG_MIN <= n <= LONG_MAX then Long(n) else Error(OutOfRange)
  }

  // ---------------------------------------------------------------- parsing

  const LOCATION := "\"location\":"
  const LATITUDE := "\"latitude\":"
  const LONGITUDE := "\"longitude\":"
  const NAME := "\"name\":"

  const HEAD := "{" + LOCATION + "{" + LATITUDE
  const MIDDLE := "," + LONGITUDE
  const TAIL := "}," + NAME + "\""

  /** One feature as it stands in the file: the texts of its numbers, and its name. */
  datatype Element = Element(latitude: string, longitude: string, name: string)

  /** One feature; an exception comes at its first number, or at its second after that latitude. */
  datatype Step =
    | Parsed(e: Element, rest: string)
    | Rejected
    | Threw(error: LongError, latitude: Option<string>)

  /** Where the text of a number ends. */
  function NumberEnd(s: string): (n: nat)
    ensures n <= |s|
    ensures forall c | c in s[..n] :: c != ',' && c != '}'
    ensures n < |s| ==> s[n] == ',' || s[n] == '}'
  {
    if s == [] || s[0] == ',' || s[0] == '}' then 0
    else
      assert forall n | 0 < n <= |s| :: s[..n] == [s[0]] + s[1..][..n - 1];
      1 + NumberEnd(s[1..])
  }

  /** Where the first quote is. */
  function QuoteAt(s: string): (n: nat)
    ensures n <= |s|
    ensures '\"' !in s[..n]
    ensures n < |s| ==> s[n] == '\"'
  {
    if s == [] || s[0] == '\"' then 0
    else
      assert forall n | 0 < n <= |s| :: s[..n] == [s[0]] + s[1..][..n - 1];
      1 + QuoteAt(s[1..])
  }

  function ParseOne(s: string): Step {
    if !(HEAD <= s) then Rejected else ParseNumbers(s[|HEAD|..])
  }

  function ParseNumbers(s: string): Step {
    var n := NumberEnd(s);
    match Stol(s[..n])
    case Error(error) => Threw(error, None)
    case Long(_) =>
      if !(MIDDLE <= s[n..]) then Rejected else ParseSecond(s[..n], s[n..][|MIDDLE|..])
  }

  function ParseSecond(latitude: string, s: string): Step {
    var n := NumberEnd(s);
    match Stol(s[..n])
    case Error(error) => Threw(error, Some(latitude))
    case Long(_) =>
      if !(TAIL <= s[n..]) then Rejected else ParseName(latitude, s[..n], s[n..][|TAIL|..])
  }

  /** The name, its quote, and what has to follow: a comma and more, or the end of the list. */
  function ParseName(latitude: string, longitude: string, s: string): Step {
    var q := QuoteAt(s);
    if q + 1 >= |s| then Rejected
    else
      var e := Element(latitude, longitude, s[..q]);
      var t := s[q + 1..];
      if "}," <= t then Parsed(e, t[2..])
      else if |t| == 2 && t[1] == ']' then Parsed(e, [])
      else Rejected
  }

  lemma KeepsNumbers(latitude: string, longitude: string, s: string)
    ensures var st := ParseName(latitude, longitude, s);
            st.Parsed? ==> st.e.latitude == latitude && st.e.longitude == longitude
  {
  }

  /** An exception leaves the features before it, and the latitude if that was read already. */
  datatype Outcome =
    | Loaded(es: seq<Element>)
    | Failed
    | Raised(before: seq<Element>, latitude: Option<string>, error: LongError)

  function ParseList(s: string): Outcome
    decreases |s|
  {
    if s == [] then Loaded([])
    else
      match ParseOne(s)
      case Rejected => Failed
      case Threw(error, latitude) => Raised([], latitude, error)
      case Parsed(e, rest) =>
        assert |rest| < |s|;
        match ParseList(rest)
        case Loaded(es) => Loaded([e] + es)
        case Failed => Failed
        case Raised(before, latitude, error) => Raised([e] + before, latitude, error)
  }

  /** A file of at most one character is taken for an empty list. */
  function Parse(db: string): Outcome {
    var s := Strip(db);
    if |s| <= 1 then Loaded([]) else if s[0] != '[' then Failed else ParseList(s[1..])
  }

  // ------------------------------------------------------- features in memory

  function ToEntry(e: Element): Entry {
    Entry(Truncated(e.latitude), Truncated(e.longitude), e.name)
  }

  /** A number of the file as an int32 field stores it. */
  function Truncated(s: string): int32 {
    match Stol(s)
    case Long(n) => ToInt32(n)
    case Error(_) => 0
  }

  function ToEntries(es: seq<Element>): (fs: seq<Entry>)
    ensures |fs| == |es| && forall i | 0 <= i < |es| :: fs[i] == ToEntry(es[i])
  {
    if es == [] then [] else [ToEntry(es[0])] + ToEntries(es[1..])
  }
}
