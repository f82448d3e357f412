/** A printer for the documented form of the db file: what it prints is loaded again. */
module DbPrinter {
  import opened Wire
  import opened Decimals
  import opened DbGrammar
  import opened DbText
  import opened DbTheorems

  function Decimal(n: int): string {
    if n < 0 then "-" + DecimalNat(-n) else DecimalNat(n)
  }

  /** A decimal is read back as its number. */
  lemma StolDecimal(n: int)
    requires LONG_MIN <= n <= LONG_MAX
    ensures Stol(Decimal(n)) == Long(n)
    ensures forall c | c in Decimal(n) :: IsDigit(c) || c == '-'
  {
    hide Stol, DecimalNat, DigitsValue, Digits, IsDigit, DIGITS;
    var sign, d := if n < 0 then "-" else "", DecimalNat(if n < 0 then -n else n);
    DecimalNatValue(if n < 0 then -n else n);
    AllDigit(d);
    StolIs(sign, d, "");
    assert Decimal(n) == sign + d == sign + d + "";
  }

  const PRINT_HEAD := "{\"location\": { \"latitude\": "
  const PRINT_MIDDLE := ", \"longitude\": "
  const PRINT_TAIL := "}, \"name\": \""
  const PRINT_END := "\" "

  /** One feature in the documented form. */
  function PrintOne(f: Entry): string {
    PRINT_HEAD + Decimal(f.latitude) + PRINT_MIDDLE + Decimal(f.longitude) + PRINT_TAIL + f.name + PRINT_END
  }

  /** The features, each but the last followed by a brace, a comma and a space. */
  function PrintFrom(fs: seq<Entry>): string
    requires fs != []
  {
    if |fs| == 1 then PrintOne(fs[0]) + "}]" else PrintOne(fs[0]) + "}," + " " + PrintFrom(fs[1..])
  }

  function Print(fs: seq<Entry>): string
    requires fs != []
  {
    "[" + PrintFrom(fs)
  }

  function ElementOf(f: Entry): Element {
    Element(Decimal(f.latitude), Decimal(f.longitude), Strip(f.name))
  }

  function ElementsOf(fs: seq<Entry>): (es: seq<Element>)
    ensures |es| == |fs| && forall i | 0 <= i < |fs| :: es[i] == ElementOf(fs[i])
  {
    if fs == [] then [] else [ElementOf(fs[0])] + ElementsOf(fs[1..])
  }

  function Stripped(f: Entry): Entry {
    f.(name := Strip(f.name))
  }

  lemma {:induction false} StripKeeps(s: string, c: char)
    requires c !in s
    ensures c !in Strip(s)
  {
    if s != [] {
      StripKeeps(s[1..], c);
    }
  }

  /** Solid text, spaces, and the rest. */
  lemma StripPiece(a: string, b: string)
    requires forall c | c in a :: !IsSpace(c)
    ensures Strip(a + " " + b) == a + Strip(b)
    ensures Strip(a + b) == a + Strip(b)
  {
    hide Strip, IsSpace;
    StripSolid(a);
    StripConcat(a, b);
    StripConcat(a + " ", b);
    StripConcat(a, " ");
    SpaceStripped();
    assert a + [] == a;
  }

  lemma SpaceStripped()
    ensures Strip(" ") == []
  {
  }

  lemma PrintHeadStripped()
    ensures Strip(PRINT_HEAD) == HEAD
  {
    hide Strip, IsSpace;
    SolidConstants();
    var t := LATITUDE + " " + "";
    StripPiece("{", LOCATION + " " + ("{" + " " + t));
    StripPiece(LOCATION, "{" + " " + t);
    StripPiece("{", t);
    StripPiece(LATITUDE, "");
    StripSolid("");
    assert PRINT_HEAD == "{" + (LOCATION + " " + ("{" + " " + t));
  }

  lemma PrintMiddleStripped()
    ensures Strip(PRINT_MIDDLE) == MIDDLE && Strip(PRINT_TAIL) == TAIL && Strip(PRINT_END) == "\""
  {
    hide Strip, IsSpace;
    SolidConstants();
    StripSolid("");
    StripPiece(",", LONGITUDE + " " + "");
    StripPiece(LONGITUDE, "");
    assert PRINT_MIDDLE == "," + " " + (LONGITUDE + " " + "");
    StripPiece("},", NAME + " " + "\"");
    StripPiece(NAME, "\"");
    StripSolid("\"");
    assert PRINT_TAIL == "}," + " " + (NAME + " " + "\"");
    StripPiece("\"", "");
    assert PRINT_END == "\"" + " " + "";
  }

  lemma PrintOneStripped(f: Entry, t: string)
    ensures Strip(PrintOne(f) + t) == Show(ElementOf(f)) + Strip(t)
  {
    hide Strip, Decimal, PRINT_HEAD, PRINT_MIDDLE, PRINT_TAIL, PRINT_END, HEAD, MIDDLE, TAIL;
    var a, b := PRINT_HEAD + Decimal(f.latitude), PRINT_HEAD + Decimal(f.latitude) + PRINT_MIDDLE;
    var c := b + Decimal(f.longitude);
    PrintHeadStripped();
    PrintMiddleStripped();
    SolidDecimal(f.latitude);
    SolidDecimal(f.longitude);
    StripSolid(Decimal(f.latitude));
    StripSolid(Decimal(f.longitude));
    StripConcat(PRINT_HEAD, Decimal(f.latitude));
    StripConcat(a, PRINT_MIDDLE);
    StripConcat(b, Decimal(f.longitude));
    StripConcat(c, PRINT_TAIL);
    StripConcat(c + PRINT_TAIL, f.name);
    StripConcat(c + PRINT_TAIL + f.name, PRINT_END);
    StripConcat(PrintOne(f), t);
  }

  lemma SolidConstants()
    ensures forall s, c | s in ["{", ",", "},", "\"", "[", "}]", LOCATION, LATITUDE, LONGITUDE, NAME] && c in s ::
              !IsSpace(c)
  {
  }

  lemma SolidDecimal(n: int32)
    ensures forall c | c in Decimal(n) :: !IsSpace(c)
  {
    StolDecimal(n);
  }

  lemma {:induction false} PrintFromStripped(fs: seq<Entry>)
    requires fs != []
    ensures Strip(PrintFrom(fs)) == Text(ElementsOf(fs), "}]")
    decreases |fs|
  {
    hide Strip, Show, PrintOne, ElementOf, IsSpace;
    SolidConstants();
    if |fs| == 1 {
      PrintOneStripped(fs[0], "}]");
      StripSolid("}]");
    } else {
      var t := "}," + " " + PrintFrom(fs[1..]);
      assert PrintFrom(fs) == PrintOne(fs[0]) + t;
      PrintOneStripped(fs[0], t);
      StripPiece("},", PrintFrom(fs[1..]));
      PrintFromStripped(fs[1..]);
      assert ElementsOf(fs)[1..] == ElementsOf(fs[1..]);
    }
  }

  lemma ElementOfOk(f: Entry)
    requires '\"' !in f.name
    ensures ElementOk(ElementOf(f)) && ToEntry(ElementOf(f)) == Stripped(f)
  {
    StolDecimal(f.latitude);
    StolDecimal(f.longitude);
    StripKeeps(f.name, '\"');
    SmallIsKept(f.latitude);
    SmallIsKept(f.longitude);
  }

  lemma SmallIsKept(n: int32)
    ensures ToInt32(n) == n
  {
  }

  lemma PrintStripped(fs: seq<Entry>)
    requires fs != []
    ensures Strip(Print(fs)) == "[" + Text(ElementsOf(fs), "}]")
  {
    hide Strip, Text, PrintFrom;
    StripPiece("[", PrintFrom(fs));
    PrintFromStripped(fs);
  }

  /**
   Printing features, and putting in or taking out white space anywhere (`core` is common
   to both texts), gives a text that is loaded as the same features, white space in their
   names removed.
   */
  lemma PrintedIsLoaded(fs: seq<Entry>, core: string, db: string)
    requires fs != [] && (forall f | f in fs :: '\"' !in f.name)
    requires Spaced(core, Print(fs)) && Spaced(core, db)
    ensures Parse(db) == Loaded(ElementsOf(fs))
    ensures forall i | 0 <= i < |fs| :: ToEntries(ElementsOf(fs))[i] == Stripped(fs[i])
  {
    hide *;
    ElementsOfOk(fs);
    SpacedStrips(core, Print(fs));
    SpacedStrips(core, db);
    PrintStripped(fs);
    BracketEnds();
    LoadedIff(db, ElementsOf(fs));
  }

  lemma BracketEnds()
    ensures EndOk("}]")
  {
  }

  lemma ElementsOfOk(fs: seq<Entry>)
    requires forall f | f in fs :: '\"' !in f.name
    ensures forall e | e in ElementsOf(fs) :: ElementOk(e)
    ensures forall i | 0 <= i < |fs| :: ToEntries(ElementsOf(fs))[i] == Stripped(fs[i])
  {
    hide ElementOf, ToEntry, Stripped, ElementOk;
    forall i | 0 <= i < |fs|
      ensures ElementOk(ElementsOf(fs)[i]) && ToEntry(ElementsOf(fs)[i]) == Stripped(fs[i])
    {
      ElementOfOk(fs[i]);
    }
  }
}
