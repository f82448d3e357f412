/** The accepted language of the db file, its unique decomposition, and the printer. */
module DbTheorems {
  import opened Wire
  import opened Wrappers
  import opened Decimals
  import opened DbGrammar

  // ------------------------------------------------------------ the language

  function Show(e: Element): string {
    HEAD + e.latitude + MIDDLE + e.longitude + TAIL + e.name + "\""
  }

  /** The elements joined by a brace and a comma, then `end`. */
  function Text(es: seq<Element>, end: string): string
    requires es != []
  {
    if |es| == 1 then Show(es[0]) + end else Show(es[0]) + "}," + Text(es[1..], end)
  }

  /** The closing brace and comma once more, or any one character and the closing bracket. */
  predicate EndOk(end: string) {
    end == "}," || (|end| == 2 && end[1] == ']')
  }

  predicate NumberOk(s: string) {
    && (forall c | c in s :: c != ',' && c != '}')
    && Stol(s).Long?
  }

  predicate ElementOk(e: Element) {
    NumberOk(e.latitude) && NumberOk(e.longitude) && '\"' !in e.name
  }

  // ----------------------------------------------------- text is parsed back

  lemma {:induction false} NumberEndAt(s: string, t: string)
    requires (forall c | c in s :: c != ',' && c != '}') && t != [] && (t[0] == ',' || t[0] == '}')
    ensures NumberEnd(s + t) == |s|
  {
    if s == [] {
      assert s + t == t;
    } else {
      assert s[0] in s && forall c | c in s[1..] :: c in s;
      assert (s + t)[1..] == s[1..] + t;
      NumberEndAt(s[1..], t);
    }
  }

  lemma {:induction false} QuoteAtEnd(s: string, t: string)
    requires '\"' !in s && t != [] && t[0] == '\"'
    ensures QuoteAt(s + t) == |s|
  {
    if s == [] {
      assert s + t == t;
    } else {
      assert (s + t)[1..] == s[1..] + t;
      QuoteAtEnd(s[1..], t);
    }
  }

  lemma Cut(a: string, b: string)
    ensures a <= a + b && (a + b)[..|a|] == a && (a + b)[|a|..] == b
  {
  }

  lemma NameIsParsed(e: Element, t: string)
    requires '\"' !in e.name && ("}," <= t || EndOk(t))
    ensures ParseName(e.latitude, e.longitude, e.name + "\"" + t) == Parsed(e, if "}," <= t then t[2..] else [])
  {
    var s := e.name + "\"" + t;
    assert s == e.name + ("\"" + t);
    QuoteAtEnd(e.name, "\"" + t);
    assert s[..|e.name|] == e.name && s[|e.name| + 1..] == t;
  }

  lemma NumbersAreParsed(e: Element, s: string)
    requires NumberOk(e.latitude) && NumberOk(e.longitude)
    ensures ParseNumbers(e.latitude + MIDDLE + e.longitude + TAIL + s) == ParseName(e.latitude, e.longitude, s)
  {
    hide ParseName, Stol, MIDDLE, TAIL;
    StartsWithStop();
    var t := e.longitude + (TAIL + s);
    var all := e.latitude + (MIDDLE + t);
    assert e.latitude + MIDDLE + e.longitude + TAIL + s == all;
    NumberEndAt(e.latitude, MIDDLE + t);
    NumberEndAt(e.longitude, TAIL + s);
    Cut(e.latitude, MIDDLE + t);
    Cut(MIDDLE, t);
    Cut(e.longitude, TAIL + s);
    Cut(TAIL, s);
  }

  lemma StartsWithStop()
    ensures MIDDLE != [] && MIDDLE[0] == ',' && TAIL != [] && TAIL[0] == '}'
  {
  }

  lemma ElementIsParsed(e: Element, t: string)
    requires ElementOk(e) && ("}," <= t || EndOk(t))
    ensures ParseOne(Show(e) + t) == Parsed(e, if "}," <= t then t[2..] else [])
  {
    hide ParseName, ParseNumbers, NumberOk, EndOk;
    var s := e.name + "\"" + t;
    var u := e.latitude + MIDDLE + e.longitude + TAIL + s;
    assert Show(e) + t == HEAD + u;
    assert (HEAD + u)[|HEAD|..] == u;
    NumbersAreParsed(e, s);
    NameIsParsed(e, t);
  }

  lemma {:induction false} TextIsParsed(es: seq<Element>, end: string)
    requires es != [] && EndOk(end) && forall e | e in es :: ElementOk(e)
    ensures ParseList(Text(es, end)) == Loaded(es)
    decreases |es|
  {
    hide ParseOne, Show, ElementOk;
    var e := es[0];
    assert e in es;
    ShowNotEmpty(e);
    if |es| == 1 {
      ElementIsParsed(e, end);
      assert es == [e];
      assert ParseList([]) == Loaded([]);
    } else {
      var rest := Text(es[1..], end);
      assert Text(es, end) == Show(e) + ("}," + rest);
      assert ("}," + rest)[2..] == rest;
      ElementIsParsed(e, "}," + rest);
      TextIsParsed(es[1..], end);
      assert es == [e] + es[1..];
    }
  }

  lemma ShowNotEmpty(e: Element)
    ensures Show(e) != []
  {
  }

  // ----------------------------------------------------- what is parsed is text

  lemma NameParsedBack(latitude: string, longitude: string, s: string)
    requires ParseName(latitude, longitude, s).Parsed?
    ensures var st := ParseName(latitude, longitude, s);
            && st.e.latitude == latitude && st.e.longitude == longitude && '\"' !in st.e.name
            && (s == st.e.name + "\"" + "}," + st.rest
                || (st.rest == [] && exists end :: EndOk(end) && s == st.e.name + "\"" + end))
  {
    hide QuoteAt;
    var q := QuoteAt(s);
    var t := s[q + 1..];
    assert s == s[..q] + "\"" + t;
    if "}," <= t {
      CutBack(t, 0, "},");
      assert t == "}," + t[2..];
      assert s[..q] + "\"" + ("}," + t[2..]) == s[..q] + "\"" + "}," + t[2..];
    } else {
      assert EndOk(t);
    }
  }

  lemma NumbersParsedBack(s: string) returns (u: string)
    requires ParseNumbers(s).Parsed?
    ensures var e := ParseNumbers(s).e;
            && NumberOk(e.latitude) && NumberOk(e.longitude)
            && s == e.latitude + MIDDLE + e.longitude + TAIL + u
            && ParseNumbers(s) == ParseName(e.latitude, e.longitude, u)
  {
    hide ParseName, Stol, MIDDLE, TAIL, NumberEnd;
    var n := NumberEnd(s);
    var t := s[n..][|MIDDLE|..];
    var k := NumberEnd(t);
    u := t[k..][|TAIL|..];
    KeepsNumbers(s[..n], t[..k], u);
    CutBack(s, n, MIDDLE);
    CutBack(t, k, TAIL);
    Joined(s[..n], MIDDLE, t[..k], TAIL, u);
  }

  lemma CutBack(s: string, n: nat, m: string)
    requires n <= |s| && m <= s[n..]
    ensures s == s[..n] + (m + s[n..][|m|..])
  {
  }

  lemma Joined(a: string, b: string, c: string, d: string, e: string)
    ensures a + (b + (c + (d + e))) == a + b + c + d + e
  {
  }

  lemma ElementParsedBack(s: string)
    requires ParseOne(s).Parsed?
    ensures var st := ParseOne(s);
            && ElementOk(st.e)
            && (s == Show(st.e) + "}," + st.rest
                || (st.rest == [] && exists end :: EndOk(end) && s == Show(st.e) + end))
  {
    hide ParseName, ParseNumbers, NumberOk, EndOk, HEAD, MIDDLE, TAIL;
    var st := ParseOne(s);
    var t := s[|HEAD|..];
    assert s == HEAD + t;
    var u := NumbersParsedBack(t);
    var e := st.e;
    NameParsedBack(e.latitude, e.longitude, u);
    if u == e.name + "\"" + "}," + st.rest {
      assert s == Show(e) + "}," + st.rest;
    } else {
      var end :| EndOk(end) && u == e.name + "\"" + end;
      assert s == Show(e) + end;
    }
  }

  lemma {:induction false} ListParsedBack(s: string) returns (end: string)
    requires s != [] && ParseList(s).Loaded?
    ensures var es := ParseList(s).es;
            es != [] && EndOk(end) && (forall e | e in es :: ElementOk(e)) && s == Text(es, end)
    decreases |s|
  {
    hide ParseOne, Show, ElementOk;
    var st := ParseOne(s);
    ElementParsedBack(s);
    var es := ParseList(s).es;
    assert es == [st.e] + ParseList(st.rest).es;
    if st.rest == [] {
      assert ParseList(st.rest).es == [];
      if s == Show(st.e) + "}," + st.rest {
        end := "},";
        assert s == Show(st.e) + end;
      } else {
        end :| EndOk(end) && s == Show(st.e) + end;
      }
    } else {
      end := ListParsedBack(st.rest);
      assert es[1..] == ParseList(st.rest).es;
    }
  }

  // --------------------------------------------------------------- theorems

  /** A non-empty list is loaded from exactly the texts of this form. */
  lemma LoadedIff(db: string, es: seq<Element>)
    requires es != []
    ensures Parse(db) == Loaded(es)
            <==> (forall e | e in es :: ElementOk(e))
                 && exists end :: EndOk(end) && Strip(db) == "[" + Text(es, end)
  {
    hide ParseList, ElementOk, EndOk, Text;
    var s := Strip(db);
    if Parse(db) == Loaded(es) {
      LoadedNotEmpty(s[1..], es);
      var end := ListParsedBack(s[1..]);
      assert s == "[" + s[1..];
    }
    if (forall e | e in es :: ElementOk(e)) && exists end :: EndOk(end) && s == "[" + Text(es, end) {
      var end :| EndOk(end) && s == "[" + Text(es, end);
      TextIsParsed(es, end);
      LoadedNotEmpty(Text(es, end), es);
      assert s[1..] == Text(es, end);
    }
  }

  /** An empty list is loaded exactly from a file of at most one character that is no white space. */
  lemma EmptyIff(db: string)
    ensures Parse(db) == Loaded([]) <==> |Strip(db)| <= 1
    ensures Strip(db) == "[]" ==> Parse(db) == Failed
  {
    hide Strip, ParseOne;
    var s := Strip(db);
    if |s| > 1 && s[0] == '[' && ParseList(s[1..]).Loaded? {
      var st := ParseOne(s[1..]);
      assert st.Parsed?;
    }
    if s == "[]" {
      BracketIsNoFeature();
      assert s[1..] == "]";
    }
  }

  lemma BracketIsNoFeature()
    ensures ParseOne("]").Rejected?
  {
    assert "]"[0] != '{' && HEAD[0] == '{';
  }

  lemma LoadedNotEmpty(s: string, es: seq<Element>)
    requires ParseList(s) == Loaded(es) && es != []
    ensures s != []
  {
  }

  // ------------------------------------------------------- which texts raise

  /** A number text, with a comma, a brace or nothing after it, that `std::stol` does not read. */
  predicate Throws(n: string, rest: string, error: LongError) {
    && (forall c | c in n :: c != ',' && c != '}')
    && (rest == [] || rest[0] == ',' || rest[0] == '}')
    && Stol(n) == Error(error)
  }

  /** A feature that raises: at its first number, or at its second after a legal latitude. */
  ghost predicate ThrowsAt(s: string, latitude: Option<string>, error: LongError) {
    match latitude
    case None => exists n, rest :: Throws(n, rest, error) && s == HEAD + (n + rest)
    case Some(m) => NumberOk(m) && exists n, rest :: Throws(n, rest, error) && s == HEAD + (m + (MIDDLE + (n + rest)))
  }

  /** Features with their separators. */
  function Lead(es: seq<Element>): string {
    if es == [] then "" else Show(es[0]) + "}," + Lead(es[1..])
  }

  lemma NumberEnds(n: string, rest: string)
    requires (forall c | c in n :: c != ',' && c != '}') && (rest == [] || rest[0] == ',' || rest[0] == '}')
    ensures NumberEnd(n + rest) == |n| && (n + rest)[..|n|] == n
  {
    if rest != [] {
      NumberEndAt(n, rest);
    } else {
      assert n + rest == n;
      assert forall k | 0 <= k < |n| :: n[k] in n;
    }
  }

  lemma NumberEndsBack(s: string)
    ensures var k := NumberEnd(s);
            && (forall c | c in s[..k] :: c != ',' && c != '}')
            && (s[k..] == [] || s[k..][0] == ',' || s[k..][0] == '}')
            && s == s[..k] + s[k..]
  {
  }

  lemma SecondThrows(m: string, s: string)
    requires NumberOk(m)
    ensures ParseNumbers(m + (MIDDLE + s)) == ParseSecond(m, s)
  {
    hide ParseSecond, Stol, MIDDLE;
    StartsWithStop();
    NumberEndAt(m, MIDDLE + s);
    Cut(m, MIDDLE + s);
    Cut(MIDDLE, s);
  }

  lemma ThrowsIsRaised(s: string, latitude: Option<string>, error: LongError)
    requires ThrowsAt(s, latitude, error)
    ensures ParseOne(s) == Threw(error, latitude)
  {
    hide Stol, HEAD, MIDDLE, TAIL, NumberOk, NumberEnd;
    match latitude
    case None =>
      var n, rest :| Throws(n, rest, error) && s == HEAD + (n + rest);
      Cut(HEAD, n + rest);
      NumberEnds(n, rest);
    case Some(m) =>
      var n, rest :| Throws(n, rest, error) && s == HEAD + (m + (MIDDLE + (n + rest)));
      Cut(HEAD, m + (MIDDLE + (n + rest)));
      NumberEnds(n, rest);
      SecondThrows(m, n + rest);
  }

  lemma SecondRaisedBack(m: string, s: string)
    requires ParseSecond(m, s).Threw?
    ensures ParseSecond(m, s).latitude == Some(m)
    ensures exists n, rest :: Throws(n, rest, ParseSecond(m, s).error) && s == n + rest
  {
    hide Stol, TAIL, ParseName, NumberEnd;
    NameDoesNotThrow(m, s);
    NumberEndsBack(s);
    assert Throws(s[..NumberEnd(s)], s[NumberEnd(s)..], ParseSecond(m, s).error);
  }

  lemma NameDoesNotThrow(m: string, s: string)
    ensures forall n, t :: !ParseName(m, n, t).Threw?
  {
  }

  lemma NumbersRaisedBack(s: string)
    requires ParseNumbers(s).Threw?
    ensures var st := ParseNumbers(s);
            match st.latitude
            case None => exists n, rest :: Throws(n, rest, st.error) && s == n + rest
            case Some(m) => NumberOk(m) && exists n, rest :: Throws(n, rest, st.error) && s == m + (MIDDLE + (n + rest))
  {
    hide Stol, MIDDLE, ParseSecond, NumberEnd;
    var k := NumberEnd(s);
    NumberEndsBack(s);
    if Stol(s[..k]).Error? {
      assert Throws(s[..k], s[k..], ParseNumbers(s).error);
    } else {
      var t := s[k..][|MIDDLE|..];
      SecondRaisedBack(s[..k], t);
      var n, rest :| Throws(n, rest, ParseNumbers(s).error) && t == n + rest;
      CutBack(s, k, MIDDLE);
    }
  }

  lemma RaisedThrows(s: string)
    requires ParseOne(s).Threw?
    ensures ThrowsAt(s, ParseOne(s).latitude, ParseOne(s).error)
  {
    hide ParseNumbers, HEAD, MIDDLE, NumberOk, Throws;
    var t, st := s[|HEAD|..], ParseOne(s);
    NumbersRaisedBack(t);
    CutBack(s, 0, HEAD);
    assert s == HEAD + t;
  }

  lemma {:induction false} LeadRaises(es: seq<Element>, s: string, latitude: Option<string>, error: LongError)
    requires (forall e | e in es :: ElementOk(e)) && ParseOne(s) == Threw(error, latitude) && s != []
    ensures ParseList(Lead(es) + s) == Raised(es, latitude, error)
    decreases |es|
  {
    hide ParseOne, Show, ElementOk;
    if es == [] {
      assert Lead(es) + s == s;
    } else {
      assert es[0] in es && forall e | e in es[1..] :: e in es;
      var rest := Lead(es[1..]) + s;
      assert Lead(es) + s == Show(es[0]) + ("}," + rest);
      assert ("}," + rest)[2..] == rest;
      ElementIsParsed(es[0], "}," + rest);
      ShowNotEmpty(es[0]);
      LeadRaises(es[1..], s, latitude, error);
      assert es == [es[0]] + es[1..];
    }
  }

  lemma {:induction false} RaisedLeads(s: string) returns (t: string)
    requires ParseList(s).Raised?
    ensures var o := ParseList(s);
            && (forall e | e in o.before :: ElementOk(e))
            && ParseOne(t) == Threw(o.error, o.latitude) && s == Lead(o.before) + t
    decreases |s|
  {
    hide ParseOne, Show, ElementOk;
    var st := ParseOne(s);
    if st.Threw? {
      t := s;
      assert Lead([]) + t == t;
    } else {
      ElementParsedBack(s);
      t := RaisedLeads(st.rest);
      var before := ParseList(st.rest).before;
      assert ParseList([]) == Loaded([]);
      assert ([st.e] + before)[1..] == before;
      assert Show(st.e) + "}," + (Lead(before) + t) == Show(st.e) + "}," + Lead(before) + t;
    }
  }

  lemma ThrowsNotEmpty(s: string)
    requires ParseOne(s).Threw?
    ensures s != []
  {
    assert HEAD[0] == '{';
  }

  /**
   An exception is raised from exactly the texts of this form: features with their
   separators, and one whose first or second number `std::stol` does not read.
   */
  lemma RaisedIff(db: string, es: seq<Element>, latitude: Option<string>, error: LongError)
    ensures Parse(db) == Raised(es, latitude, error)
            <==> (forall e | e in es :: ElementOk(e))
                 && exists s :: ThrowsAt(s, latitude, error) && Strip(db) == "[" + Lead(es) + s
  {
    hide ParseList, ParseOne, ElementOk, Strip, Lead, ThrowsAt;
    var all := Strip(db);
    if Parse(db) == Raised(es, latitude, error) {
      var s := RaisedLeads(all[1..]);
      RaisedThrows(s);
      assert all == "[" + all[1..] && "[" + (Lead(es) + s) == "[" + Lead(es) + s;
    }
    if (forall e | e in es :: ElementOk(e)) && exists s :: ThrowsAt(s, latitude, error) && all == "[" + Lead(es) + s {
      var s :| ThrowsAt(s, latitude, error) && all == "[" + Lead(es) + s;
      ThrowsIsRaised(s, latitude, error);
      ThrowsNotEmpty(s);
      LeadRaises(es, s, latitude, error);
      assert all[1..] == Lead(es) + s;
    }
  }

  /** A text has one decomposition. */
  lemma DecompositionUnique(es: seq<Element>, end: string, es': seq<Element>, end': string)
    requires es != [] && EndOk(end) && forall e | e in es :: ElementOk(e)
    requires es' != [] && EndOk(end') && forall e | e in es' :: ElementOk(e)
    requires Text(es, end) == Text(es', end')
    ensures es == es' && end == end'
  {
    hide Text, ParseList, ElementOk;
    assert |end| == |end'| == 2;
    TextIsParsed(es, end);
    TextIsParsed(es', end');
    TextEnds(es, end);
    TextEnds(es', end');
  }

  lemma {:induction false} TextEnds(es: seq<Element>, end: string)
    requires es != []
    ensures |Text(es, end)| >= |end| && Text(es, end)[|Text(es, end)| - |end|..] == end
    decreases |es|
  {
    hide Show;
    if |es| > 1 {
      TextEnds(es[1..], end);
    }
  }
}
