/** The parser of the example's db file: a cursor over the text without its spaces. */
module DbParser {
  import opened Wire
  import opened Wrappers
  import opened DbGrammar

  /** An exception leaves the feature as it is then: untouched, or with its latitude set. */
  datatype Try = Read(f: Entry) | No | Exception(error: LongError, latitude: Option<int32>)

  /** The latitude that an exception leaves behind. */
  function Half(latitude: Option<string>): Option<int32> {
    match latitude
    case None => None
    case Some(text) => Some(Truncated(text))
  }

  /** `std::remove_if` with `isspace`, and the erase after it. */
  method RemoveSpaces(s: string) returns (r: string)
    ensures r == Strip(s)
  {
    r := [];
    for i := 0 to |s|
      invariant r + Strip(s[i..]) == Strip(s)
    {
      if !IsSpace(s[i]) {
        r := r + [s[i]];
      }
    }
  }

  class Parser {
    var db: string
    var current: nat
    var failed: bool

    /** What is left to parse. */
    ghost function Rest(): string
      reads this
    {
      if current <= |db| then db[current..] else []
    }

    constructor (text: string)
      ensures db == Strip(text)
      ensures current == 1 && failed == !("[" <= db)
    {
      db := [];
      current := 0;
      failed := false;
      new;
      db := RemoveSpaces(text);
      var ok := Match("[");
      if !ok {
        failed := true;
      }
    }

    predicate Finished()
      reads this
    {
      current >= |db|
    }

    /** Is `prefix` next?  The cursor moves by its length either way; `substr` needs it inside the text. */
    method Match(prefix: string) returns (eq: bool)
      requires current <= |db|
      modifies this`current
      ensures eq == (prefix <= db[old(current)..])
      ensures current == old(current) + |prefix|
    {
      var end := if current + |prefix| <= |db| then current + |prefix| else |db|;
      eq := db[current..end] == prefix;
      current := current + |prefix|;
    }

    method SetFailedAndReturnFalse() returns (r: Try)
      modifies this`failed
      ensures failed && r == No
    {
      failed := true;
      r := No;
    }

    /** The number up to the next comma or brace. */
    method ReadLong() returns (r: LongResult)
      requires current <= |db|
      modifies this`current
      ensures current == old(current) + NumberEnd(db[old(current)..])
      ensures r == Stol(db[old(current)..current])
    {
      var start := current;
      while current != |db| && db[current] != ',' && db[current] != '}'
        invariant start <= current <= |db|
        invariant NumberEnd(db[start..]) == current - start + NumberEnd(db[current..])
      {
        assert db[current..][1..] == db[current + 1..];
        current := current + 1;
      }
      r := Stol(db[start..current]);
    }

    /** `ok && Match(prefix)`, where `ok` says whether `before` was matched from `start` on. */
    method AndMatch(ok: bool, ghost start: nat, ghost before: string, prefix: string) returns (eq: bool)
      requires start <= |db| && ok == (before <= db[start..])
      requires ok ==> current == start + |before| <= |db|
      modifies this`current
      ensures eq == (before + prefix <= db[start..])
      ensures eq ==> current == start + |before + prefix| <= |db|
    {
      TwoPrefixes(before, prefix, db[start..]);
      eq := ok;
      if ok {
        assert db[start..][|before|..] == db[current..];
        eq := Match(prefix);
      }
    }

    /** From the opening brace of a feature to its first number. */
    method MatchHead() returns (eq: bool)
      requires current <= |db|
      modifies this`current
      ensures eq == (HEAD <= db[old(current)..])
      ensures eq ==> current == old(current) + |HEAD| <= |db|
    {
      hide LOCATION, LATITUDE;
      ghost var s := current;
      eq := Match("{");
      eq := AndMatch(eq, s, "{", LOCATION);
      eq := AndMatch(eq, s, "{" + LOCATION, "{");
      eq := AndMatch(eq, s, "{" + LOCATION + "{", LATITUDE);
    }

    /** Between the two numbers. */
    method MatchMiddle() returns (eq: bool)
      requires current <= |db|
      modifies this`current
      ensures eq == (MIDDLE <= db[old(current)..])
      ensures eq ==> current == old(current) + |MIDDLE| <= |db|
    {
      hide LONGITUDE;
      ghost var s := current;
      eq := Match(",");
      eq := AndMatch(eq, s, ",", LONGITUDE);
    }

    /** From the second number to the name. */
    method MatchTail() returns (eq: bool)
      requires current <= |db|
      modifies this`current
      ensures eq == (TAIL <= db[old(current)..])
      ensures eq ==> current == old(current) + |TAIL| <= |db|
    {
      hide NAME;
      ghost var s := current;
      eq := Match("},");
      eq := AndMatch(eq, s, "},", NAME);
      eq := AndMatch(eq, s, "}," + NAME, "\"");
    }

    /** Past the next quote, or to the end of the text. */
    method SkipPastQuote()
      requires current <= |db|
      modifies this`current
      ensures var q := QuoteAt(db[old(current)..]);
              current == if old(current) + q < |db| then old(current) + q + 1 else |db|
    {
      ghost var start := current;
      while current != |db|
        invariant start <= current <= |db|
        invariant QuoteAt(db[start..]) == current - start + QuoteAt(db[current..])
      {
        assert db[current..][1..] == db[current + 1..];
        var c := db[current];
        current := current + 1;
        if c == '\"' {
          break;
        }
      }
    }

    /** `db_[i]`: the index may be the length, where the terminating 0 stands. */
    method CharAt(i: nat) returns (c: char)
      requires i <= |db|
      ensures c == if i < |db| then db[i] else '\0'
    {
      c := if i < |db| then db[i] else '\0';
    }

    /**
     What follows a name's quote.  The last character is looked at before the length is,
     with the cursor past the end if only one character is left; it is one past at most.
     */
    method MatchEnd() returns (ok: bool)
      requires 0 < current < |db|
      modifies this`current
      ensures current - 1 <= |db|
      ensures ok == ("}," <= db[old(current)..] || (old(current) + 2 == |db| && db[old(current) + 1] == ']'))
      ensures ok ==> current == old(current) + 2 <= |db|
    {
      ok := Match("},");
      if !ok {
        var last := CharAt(current - 1);
        ok := last == ']' && current == |db|;
      }
    }

    /** The name and what follows it. */
    method ReadNameAndEnd(ghost latitude: string, ghost longitude: string) returns (r: Option<string>)
      requires current <= |db|
      modifies this`current
      ensures var st := ParseName(latitude, longitude, db[old(current)..]);
              if st.Parsed? then r == Some(st.e.name) && old(current) < current <= |db| && db[current..] == st.rest
              else st.Rejected? && r == None
    {
      var start := current;
      SkipPastQuote();
      ghost var s := db[start..];
      ghost var q := QuoteAt(s);
      if current == |db| {
        assert q + 1 >= |s|;
        return None;
      }
      var name := db[start..current - 1];
      assert name == s[..q];
      ghost var t := s[q + 1..];
      assert t == db[current..];
      var ok := MatchEnd();
      r := if ok then Some(name) else None;
      if ok {
        assert db[current..] == t[2..];
      }
    }

    /** The second number and what follows it, up to the next feature. */
    method ReadSecond(latitude: int32, ghost text: string) returns (r: Try)
      requires current <= |db| && latitude == Truncated(text)
      modifies this`current, this`failed
      ensures var st := ParseSecond(text, db[old(current)..]);
              && (st.Parsed? ==> r == Read(ToEntry(st.e)) && failed == old(failed)
                                 && old(current) < current <= |db| && db[current..] == st.rest)
              && (st.Rejected? ==> r == No && failed)
              && (st.Threw? ==> r == Exception(st.error, Half(st.latitude)))
    {
      hide ParseName, Stol, TAIL, NumberEnd, ToInt32;
      ghost var s := db[current..];
      ghost var n := NumberEnd(s);
      var longitude := ReadLong();
      assert db[old(current)..current] == s[..n] && db[current..] == s[n..];
      if longitude.Error? {
        return Exception(longitude.error, Some(latitude));
      }
      var ok := MatchTail();
      if !ok {
        r := SetFailedAndReturnFalse();
        return;
      }
      ghost var t := s[n..][|TAIL|..];
      assert db[current..] == t;
      KeepsNumbers(text, s[..n], t);
      var name := ReadNameAndEnd(text, s[..n]);
      if name.None? {
        r := SetFailedAndReturnFalse();
        return;
      }
      r := Read(Entry(latitude, ToInt32(longitude.value), name.value));
    }

    /** Both numbers and what follows them, up to the next feature. */
    method ReadNumbers() returns (r: Try)
      requires current <= |db|
      modifies this`current, this`failed
      ensures var st := ParseNumbers(db[old(current)..]);
              && (st.Parsed? ==> r == Read(ToEntry(st.e)) && failed == old(failed)
                                 && old(current) < current <= |db| && db[current..] == st.rest)
              && (st.Rejected? ==> r == No && failed)
              && (st.Threw? ==> r == Exception(st.error, Half(st.latitude)))
    {
      hide ParseSecond, Stol, MIDDLE, NumberEnd, ToInt32;
      ghost var s := db[current..];
      ghost var n := NumberEnd(s);
      var latitude := ReadLong();
      assert db[old(current)..current] == s[..n] && db[current..] == s[n..];
      if latitude.Error? {
        return Exception(latitude.error, None);
      }
      var ok := MatchMiddle();
      if !ok {
        r := SetFailedAndReturnFalse();
        return;
      }
      assert db[current..] == s[n..][|MIDDLE|..];
      r := ReadSecond(ToInt32(latitude.value), s[..n]);
    }

    /**
     One feature.  A success moves the cursor ahead; a failure sets the flag for good.
     */
    method TryParseOne() returns (r: Try)
      requires !failed ==> current > 0
      modifies this`current, this`failed
      ensures old(failed) || old(Finished()) ==> r == No && failed
      ensures !old(failed) && !old(Finished()) ==>
                var st := ParseOne(old(Rest()));
                && (st.Parsed? ==> r == Read(ToEntry(st.e)) && !failed
                                   && old(current) < current <= |db| && Rest() == st.rest)
                && (st.Rejected? ==> r == No && failed)
                && (st.Threw? ==> r == Exception(st.error, Half(st.latitude)))
    {
      hide ParseNumbers, HEAD;
      if failed || Finished() {
        r := SetFailedAndReturnFalse();
        return;
      }
      ghost var all := Rest();
      var ok := MatchHead();
      if !ok {
        r := SetFailedAndReturnFalse();
        return;
      }
      assert db[current..] == all[|HEAD|..];
      r := ReadNumbers();
    }
  }

  lemma TwoPrefixes(a: string, b: string, s: string)
    ensures (a + b <= s) == (a <= s && b <= s[|a|..])
  {
    if a <= s && b <= s[|a|..] {
      assert s == a + s[|a|..];
      assert s[..|a| + |b|] == a + b;
    }
    if a + b <= s {
      assert s[..|a|] == (a + b)[..|a|] == a;
      assert s[|a|..][..|b|] == s[|a|..|a| + |b|] == b;
    }
  }

  // ------------------------------------------------------------- the whole file

  /** The outcome of a list when `es` were read before it. */
  function After(es: seq<Element>, o: Outcome): Outcome {
    match o
    case Loaded(more) => Loaded(es + more)
    case Failed => Failed
    case Raised(before, latitude, error) => Raised(es + before, latitude, error)
  }

  lemma FirstElement(es: seq<Element>, s: string)
    requires s != []
    ensures ParseOne(s).Parsed? ==> After(es, ParseList(s)) == After(es + [ParseOne(s).e], ParseList(ParseOne(s).rest))
    ensures ParseOne(s).Rejected? ==> After(es, ParseList(s)) == Failed
    ensures ParseOne(s).Threw? ==> After(es, ParseList(s)) == Raised(es, ParseOne(s).latitude, ParseOne(s).error)
  {
    hide ParseOne;
    var st := ParseOne(s);
    if st.Parsed? && ParseList(st.rest).Loaded? {
      var rest := ParseList(st.rest).es;
      assert es + ([st.e] + rest) == es + [st.e] + rest;
    } else if st.Parsed? && ParseList(st.rest).Raised? {
      var before := ParseList(st.rest).before;
      assert es + ([st.e] + before) == es + [st.e] + before;
    } else if st.Threw? {
      assert es + [] == es;
    }
  }

  lemma {:induction false} ToEntriesAppend(es: seq<Element>, e: Element)
    ensures ToEntries(es + [e]) == ToEntries(es) + [ToEntry(e)]
  {
    if es == [] {
      assert es + [e] == [e];
      assert ToEntries([]) == [];
    } else {
      ToEntriesAppend(es[1..], e);
      assert (es + [e])[1..] == es[1..] + [e];
    }
  }

  /** What the loop starts with, given the stripped text. */
  lemma Start(text: string, db: string, rest: string)
    requires db == Strip(text) && rest == if 1 <= |db| then db[1..] else []
    ensures "[" <= db ==> Parse(text) == After([], ParseList(rest))
    ensures !("[" <= db) ==> Parse(text) == if |db| <= 1 then Loaded([]) else Failed
  {
    hide Strip, ParseOne;
    assert ParseList([]) == Loaded([]);
    if ParseList(rest).Loaded? {
      assert [] + ParseList(rest).es == ParseList(rest).es;
    } else if ParseList(rest).Raised? {
      assert [] + ParseList(rest).before == ParseList(rest).before;
    }
  }

  lemma NothingRead()
    ensures ToEntries([]) == []
  {
  }

  /** At the end of the text the features read are the list. */
  lemma AllRead(es: seq<Element>)
    ensures After(es, ParseList([])) == Loaded(es)
  {
    assert ParseList([]) == Loaded([]) && es + [] == es;
  }

  /**
   The whole file.  `None` is a normal return.  When an exception of `std::stol` leaves the
   function, the list holds the features before it and one more, which is as it was made or
   has the given latitude and nothing else.
   */
  method ParseDb(text: string)
    returns (list: seq<Entry>, exception: Option<LongError>, last: Option<int32>)
    ensures Parse(text).Loaded? ==> exception == None && list == ToEntries(Parse(text).es)
    ensures Parse(text).Failed? ==> exception == None && list == []
    ensures Parse(text).Raised? ==>
              && exception == Some(Parse(text).error)
              && list == ToEntries(Parse(text).before) && last == Half(Parse(text).latitude)
  {
    hide Parse, ParseOne, ParseList, ToEntry, Strip, After, ToEntries, Half;
    list := [];
    exception, last := None, None;
    var content := RemoveSpaces(text);
    StripIdempotent(text);
    var parser := new Parser(content);
    ghost var es: seq<Element> := [];
    Start(text, parser.db, parser.Rest());
    NothingRead();
    while !parser.Finished()
      invariant parser.current > 0 && exception == None && list == ToEntries(es)
      invariant parser.failed ==> es == [] && Parse(text) == if parser.Finished() then Loaded([]) else Failed
      invariant !parser.failed ==> Parse(text) == After(es, ParseList(parser.Rest()))
      decreases |parser.db| - parser.current
    {
      FirstElement(es, parser.Rest());
      ghost var st := ParseOne(parser.Rest());
      var r := parser.TryParseOne();
      match r
      case Read(f) =>
        ToEntriesAppend(es, st.e);
        es := es + [st.e];
        list := list + [f];
      case No =>
        list := [];
        break;
      case Exception(error, latitude) =>
        exception, last := Some(error), latitude;
        break;
    }
    assert parser.Finished() ==> parser.Rest() == [];
    AllRead(es);
  }
}
