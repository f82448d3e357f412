/** The string helpers of the code generator: replacing, splitting, and stripping suffixes. */
module Strings {
  // -------------------------------------------------------------- replacing

  /** `std::string::find`: the first place where `from` stands, or -1. */
  function Find(s: string, from: string): (i: int)
    ensures i == -1 || 0 <= i <= i + |from| <= |s|
  {
    if from <= s then 0
    else if s == [] then -1
    else
      var i := Find(s[1..], from);
      if i < 0 then -1 else i + 1
  }

  /** It stands there, and nowhere before. */
  lemma {:induction false} FindIsFirst(s: string, from: string, k: nat)
    requires k <= |s|
    ensures k == Find(s, from) ==> from <= s[k..]
    ensures Find(s, from) < 0 || k < Find(s, from) ==> !(from <= s[k..])
  {
    if k == 0 {
      assert s[0..] == s;
    } else {
      assert s[1..][k - 1..] == s[k..];
      FindIsFirst(s[1..], from, k - 1);
    }
  }

  function Take(s: string, n: int): string {
    if 0 <= n <= |s| then s[..n] else s
  }

  function Drop(s: string, n: int): string {
    if 0 <= n <= |s| then s[n..] else []
  }

  /** Every occurrence replaced, from left to right, none overlapping another. */
  function Replaced(s: string, from: string, to: string): string {
    if s == [] || from == [] then s
    else if from <= s then to + Replaced(s[|from|..], from, to)
    else [s[0]] + Replaced(s[1..], from, to)
  }

  /** Only the first occurrence replaced. */
  function ReplacedOnce(s: string, from: string, to: string): string {
    var i := Find(s, from);
    if i < 0 then s else ReplaceRange(s, i, |from|, to)
  }

  lemma {:induction false} ReplacedAtFind(s: string, from: string, to: string)
    requires from != []
    ensures var i := Find(s, from);
            Replaced(s, from, to) == if i < 0 then s else Take(s, i) + (to + Replaced(Drop(s, i + |from|), from, to))
  {
    hide Find, Replaced, Take, Drop;
    Unfold(s, from, to);
    if from <= s {
      Front(s, to + Replaced(Drop(s, |from|), from, to));
    } else if s != [] {
      ReplacedAtFind(s[1..], from, to);
      var i := Find(s[1..], from);
      if i < 0 {
        Front(s, []);
      } else {
        AfterFirst(s, i, |from|, to + Replaced(Drop(s[1..], i + |from|), from, to));
      }
    }
  }

  /** Both definitions, one step. */
  lemma Unfold(s: string, from: string, to: string)
    requires from != []
    ensures from <= s ==> Find(s, from) == 0 && Replaced(s, from, to) == to + Replaced(Drop(s, |from|), from, to)
    ensures !(from <= s) && s == [] ==> Find(s, from) == -1 && Replaced(s, from, to) == []
    ensures !(from <= s) && s != [] ==>
              && Find(s, from) == (if Find(s[1..], from) < 0 then -1 else Find(s[1..], from) + 1)
              && Replaced(s, from, to) == [s[0]] + Replaced(s[1..], from, to)
  {
  }

  lemma Front(s: string, t: string)
    ensures Take(s, 0) + t == t
    ensures s != [] ==> [s[0]] + s[1..] == s
  {
  }

  lemma AfterFirst(s: string, i: nat, n: nat, t: string)
    requires i + 1 + n <= |s|
    ensures Drop(s[1..], i + n) == Drop(s, i + 1 + n)
    ensures [s[0]] + (Take(s[1..], i) + t) == Take(s, i + 1) + t
  {
    assert s[..i + 1] == [s[0]] + s[1..][..i];
  }

  /** `std::string::replace`: `to` in place of `n` characters at `at`. */
  function ReplaceRange(s: string, at: nat, n: nat, to: string): string
    requires at + n <= |s|
  {
    s[..at] + to + s[at + n..]
  }

  lemma ReplaceRangeIn(done: string, rest: string, i: nat, n: nat, to: string)
    requires i + n <= |rest|
    ensures ReplaceRange(done + rest, |done| + i, n, to) == (done + Take(rest, i) + to) + Drop(rest, i + n)
  {
    assert (done + rest)[..|done| + i] == done + rest[..i];
    assert (done + rest)[|done| + i + n..] == rest[i + n..];
  }

  lemma Regroup(a: string, b: string, c: string, d: string)
    ensures a + (b + (c + d)) == a + b + c + d
  {
  }

  /** The text half way through: `done` is final, `rest` has still to be searched. */
  datatype Halves = Halves(done: string, rest: string) {
    function Text(): string {
      done + rest
    }

    function AllReplaced(from: string, to: string): string {
      done + Replaced(rest, from, to)
    }

    /** `n` characters at `i` of the rest give way to `to`, which is final. */
    function Next(i: int, n: int, to: string): Halves {
      Halves(done + Take(rest, i) + to, Drop(rest, i + n))
    }
  }

  lemma NextText(h: Halves, i: nat, n: nat, to: string)
    requires i + n <= |h.rest|
    ensures h.Next(i, n, to).Text() == ReplaceRange(h.Text(), |h.done| + i, n, to)
    ensures |h.Next(i, n, to).done| == |h.done| + i + |to|
    ensures |h.Next(i, n, to).rest| == |h.rest| - i - n
  {
    ReplaceRangeIn(h.done, h.rest, i, n, to);
  }

  lemma NextParts(h: Halves, i: int, n: int, to: string, after: string)
    ensures h.Next(i, n, to).rest == Drop(h.rest, i + n)
    ensures h.Next(i, n, to).done + after == h.done + (Take(h.rest, i) + (to + after))
  {
    hide Take, Drop;
    Regroup(h.done, Take(h.rest, i), to, after);
  }

  lemma NextReplaced(h: Halves, from: string, to: string)
    requires from != [] && Find(h.rest, from) >= 0
    ensures h.Next(Find(h.rest, from), |from|, to).AllReplaced(from, to) == h.AllReplaced(from, to)
  {
    hide Find, Replaced, Take, Drop, Halves.Next;
    var i := Find(h.rest, from);
    ReplacedAtFind(h.rest, from, to);
    NextParts(h, i, |from|, to, Replaced(Drop(h.rest, i + |from|), from, to));
  }

  lemma NoneLeft(h: Halves, from: string, to: string)
    requires from != [] && Find(h.rest, from) < 0
    ensures h.AllReplaced(from, to) == h.Text()
  {
    ReplacedAtFind(h.rest, from, to);
  }

  lemma Rest(h: Halves)
    ensures |h.done| <= |h.Text()| && h.Text()[|h.done|..] == h.rest
  {
  }

  lemma Whole(str: string, from: string, to: string)
    ensures Halves([], str).Text() == str
    ensures from != [] ==> Halves([], str).AllReplaced(from, to) == Replaced(str, from, to)
  {
  }

  /**
   With an empty pattern and `replaceAll` the loop would insert `to` at every position it
   reaches and never end.
   */
  method StringReplace(str: string, from: string, to: string, replaceAll: bool) returns (s: string)
    requires replaceAll ==> from != []
    ensures s == if replaceAll then Replaced(str, from, to) else ReplacedOnce(str, from, to)
  {
    hide Find, Replaced, ReplaceRange, Halves.Text, Halves.AllReplaced, Halves.Next;
    s := str;
    var pos := 0;
    ghost var h := Halves([], str);
    Whole(str, from, to);
    while true
      invariant pos == |h.done| && s == h.Text()
      invariant replaceAll ==> h.AllReplaced(from, to) == Replaced(str, from, to)
      invariant !replaceAll ==> pos == 0 && s == str && h.rest == str
      decreases |h.rest|
    {
      Rest(h);
      var i := Find(s[pos..], from);
      if i < 0 {
        if replaceAll {
          NoneLeft(h, from, to);
        }
        break;
      }
      NextText(h, i, |from|, to);
      if replaceAll {
        NextReplaced(h, from, to);
      }
      s := ReplaceRange(s, pos + i, |from|, to);
      pos := pos + i + |to|;
      h := h.Next(i, |from|, to);
      if !replaceAll {
        break;
      }
    }
  }

  // --------------------------------------------------------------- splitting

  /** The pieces between the delimiters; one more than there are delimiters. */
  function Split(s: string, delimiters: string): (pieces: seq<string>)
    ensures pieces != []
  {
    if s == [] then [[]]
    else
      var rest := Split(s[1..], delimiters);
      if s[0] in delimiters then [[]] + rest else [[s[0]] + rest[0]] + rest[1..]
  }

  function Join(pieces: seq<string>, glue: string): string
    requires pieces != []
    decreases |pieces|
  {
    if |pieces| == 1 then pieces[0] else pieces[0] + glue + Join(pieces[1..], glue)
  }

  /** The first place from `last` on that holds one of the delimiters, or the end. */
  function FindFirstOf(s: string, delimiters: string, last: nat): (pos: nat)
    requires last <= |s|
    ensures last <= pos <= |s|
    ensures forall i | last <= i < pos :: s[i] !in delimiters
    ensures pos < |s| ==> s[pos] in delimiters
    decreases |s| - last
  {
    if last == |s| || s[last] in delimiters then last else FindFirstOf(s, delimiters, last + 1)
  }

  lemma {:induction false} SplitAtFirst(s: string, delimiters: string, last: nat)
    requires last <= |s|
    ensures var pos := FindFirstOf(s, delimiters, last);
            Split(s[last..], delimiters)
            == if pos == |s| then [s[last..]] else [s[last..pos]] + Split(s[pos + 1..], delimiters)
    decreases |s| - last
  {
    var pos := FindFirstOf(s, delimiters, last);
    if last < |s| {
      assert s[last..][1..] == s[last + 1..];
      if s[last] in delimiters {
        assert s[last..pos] == [];
      } else {
        SplitAtFirst(s, delimiters, last + 1);
        assert s[last..pos] == [s[last]] + s[last + 1..pos];
        assert s[last..] == [s[last]] + s[last + 1..];
      }
    }
  }

  lemma NextToken(tokens: seq<string>, input: string, delimiters: string, last: nat)
    requires last <= |input|
    ensures var pos := FindFirstOf(input, delimiters, last);
            tokens + Split(input[last..], delimiters)
            == tokens + [input[last..pos]] + if pos == |input| then [] else Split(input[pos + 1..], delimiters)
  {
    hide Split, FindFirstOf;
    SplitAtFirst(input, delimiters, last);
    assert input[last..|input|] == input[last..];
  }

  method Tokenize(input: string, delimiters: string) returns (tokens: seq<string>)
    ensures tokens == Split(input, delimiters)
  {
    hide Split, FindFirstOf;
    tokens := [];
    var last := 0;
    assert input[0..] == input;
    while true
      invariant 0 <= last <= |input|
      invariant tokens + Split(input[last..], delimiters) == Split(input, delimiters)
      decreases |input| - last
    {
      NextToken(tokens, input, delimiters, last);
      var pos := FindFirstOf(input, delimiters, last);
      tokens := tokens + [input[last..pos]];
      if pos == |input| {
        return;
      }
      last := pos + 1;
    }
  }

  /** No piece holds a delimiter, and the pieces joined are the text again. */
  lemma {:induction false} JoinSplit(s: string, d: char)
    ensures Join(Split(s, [d]), [d]) == s
    ensures forall p | p in Split(s, [d]) :: d !in p
  {
    if s != [] {
      JoinSplit(s[1..], d);
      var rest := Split(s[1..], [d]);
      if s[0] == d {
        assert ([[]] + rest)[1..] == rest;
      } else {
        var all := [[s[0]] + rest[0]] + rest[1..];
        assert all[1..] == rest[1..];
      }
      assert s == [s[0]] + s[1..];
    }
  }

  /** Pieces without the delimiter are found again after joining. */
  lemma {:induction false} SplitJoin(pieces: seq<string>, d: char)
    requires pieces != [] && forall p | p in pieces :: d !in p
    ensures Split(Join(pieces, [d]), [d]) == pieces
    decreases |pieces|
  {
    var p := pieces[0];
    assert p in pieces;
    if |pieces| == 1 {
      assert pieces == [p];
      SplitSolid(p, d);
    } else {
      var rest := Join(pieces[1..], [d]);
      assert Join(pieces, [d]) == p + ([d] + rest);
      SplitJoin(pieces[1..], d);
      SplitPiece(p, d, [d] + rest);
      assert ([d] + rest)[1..] == rest;
      assert Split([d] + rest, [d]) == [[]] + pieces[1..];
      assert p + [] == p && pieces == [p] + pieces[1..];
    }
  }

  lemma {:induction false} SplitSolid(p: string, d: char)
    requires d !in p
    ensures Split(p, [d]) == [p]
  {
    if p != [] {
      assert p[0] in p && forall c | c in p[1..] :: c in p;
      SplitSolid(p[1..], d);
      assert p == [p[0]] + p[1..];
    }
  }

  lemma {:induction false} SplitPiece(p: string, d: char, s: string)
    requires d !in p
    ensures var pieces := Split(s, [d]); Split(p + s, [d]) == [p + pieces[0]] + pieces[1..]
  {
    var pieces := Split(s, [d]);
    if p == [] {
      assert p + s == s && p + pieces[0] == pieces[0] && pieces == [pieces[0]] + pieces[1..];
    } else {
      assert p[0] in p && forall c | c in p[1..] :: c in p;
      assert (p + s)[1..] == p[1..] + s;
      SplitPiece(p[1..], d, s);
      assert [p[0]] + (p[1..] + pieces[0]) == p + pieces[0];
    }
  }

  /** Replacing one character is the same as joining the pieces around it with the new text. */
  lemma {:induction false} ReplacedIsJoin(s: string, d: char, to: string)
    ensures Replaced(s, [d], to) == Join(Split(s, [d]), to)
  {
    if s != [] {
      ReplacedIsJoin(s[1..], d, to);
      var rest := Split(s[1..], [d]);
      assert [d] <= s <==> s[0] == d;
      JoinFront([s[0]], rest, to);
    }
  }

  lemma JoinFront(c: string, pieces: seq<string>, glue: string)
    requires pieces != []
    ensures Join([[]] + pieces, glue) == glue + Join(pieces, glue)
    ensures Join([c + pieces[0]] + pieces[1..], glue) == c + Join(pieces, glue)
  {
    assert ([[]] + pieces)[1..] == pieces;
    assert ([c + pieces[0]] + pieces[1..])[1..] == pieces[1..];
    if |pieces| > 1 {
      var rest := Join(pieces[1..], glue);
      assert c + (pieces[0] + glue + rest) == (c + pieces[0]) + glue + rest;
    }
  }

  // ------------------------------------------------------------ dots and colons

  method DotsToColons(name: string) returns (s: string)
    ensures s == Replaced(name, ".", "::")
  {
    s := StringReplace(name, ".", "::", true);
  }

  method DotsToUnderscores(name: string) returns (s: string)
    ensures s == Replaced(name, ".", "_")
  {
    s := StringReplace(name, ".", "_", true);
  }

  /** On a name without colons the colons can be turned back into dots. */
  lemma {:induction false} ColonsToDots(name: string)
    requires ':' !in name
    ensures Replaced(Replaced(name, ".", "::"), "::", ".") == name
  {
    if name != [] {
      assert name[0] in name && forall c | c in name[1..] :: c in name;
      ColonsToDots(name[1..]);
      var rest := Replaced(name[1..], ".", "::");
      assert name == [name[0]] + name[1..];
      if name[0] == '.' {
        assert "." <= name;
        assert ("::" + rest)[2..] == rest && "::" <= "::" + rest;
      } else {
        assert ([name[0]] + rest)[1..] == rest;
      }
    }
  }

  // ---------------------------------------------------------- one character

  lemma {:induction false} ReplacedConcat(a: string, b: string, d: char, to: string)
    ensures Replaced(a + b, [d], to) == Replaced(a, [d], to) + Replaced(b, [d], to)
  {
    if a == [] {
      assert a + b == b;
    } else {
      assert (a + b)[1..] == a[1..] + b;
      ReplacedConcat(a[1..], b, d, to);
      assert [d] <= a <==> a[0] == d;
      assert [d] <= a + b <==> a[0] == d;
    }
  }

  lemma {:induction false} ReplacedSolid(s: string, d: char, to: string)
    requires d !in s
    ensures Replaced(s, [d], to) == s
  {
    if s != [] {
      assert s[0] in s && forall c | c in s[1..] :: c in s;
      ReplacedSolid(s[1..], d, to);
      assert s == [s[0]] + s[1..];
    }
  }

  /** A text is cut at its last `d` in one way only. */
  lemma LastCut(d: char, a: string, b: string, a': string, b': string)
    requires a + [d] + b == a' + [d] + b' && d !in b && d !in b'
    ensures a == a' && b == b'
  {
    if |a| < |a'| {
      NotEarlier(d, a, b, a', b');
    } else if |a'| < |a| {
      NotEarlier(d, a', b', a, b);
    } else {
      var s := a + [d] + b;
      assert a == s[..|a|] == a' && b == s[|a| + 1..] == b';
    }
  }

  lemma NotEarlier(d: char, a: string, b: string, a': string, b': string)
    requires a + [d] + b == a' + [d] + b' && |a| < |a'|
    ensures d in b
  {
    assert (a' + [d] + b')[|a'|] == d;
    assert (a + [d] + b)[|a'|] == b[|a'| - |a| - 1];
  }

  // ---------------------------------------------------------------- suffixes

  predicate EndsWith(s: string, suffix: string) {
    |s| >= |suffix| && s[|s| - |suffix|..] == suffix
  }

  method StripSuffix(filename: string, suffix: string) returns (stripped: bool, s: string)
    ensures stripped == EndsWith(filename, suffix)
    ensures if stripped then filename == s + suffix else s == filename
  {
    s := filename;
    stripped := false;
    if |filename| >= |suffix| {
      var at := |filename| - |suffix|;
      if filename[at..] == suffix {
        s := filename[..at];
        return true, s;
      }
    }
  }

  function Stripped(filename: string): string {
    if EndsWith(filename, ".protodevel") then filename[..|filename| - 11]
    else if EndsWith(filename, ".proto") then filename[..|filename| - 6]
    else filename
  }

  method StripProto(filename: string) returns (s: string)
    ensures s == Stripped(filename)
  {
    var stripped;
    stripped, s := StripSuffix(filename, ".protodevel");
    if stripped {
      assert filename[|s|..] == ".protodevel";
    } else {
      stripped, s := StripSuffix(s, ".proto");
      if stripped {
        assert filename[|s|..] == ".proto";
      }
    }
  }

  /** The files that share a base name, and so their output files. */
  lemma StrippedTo(filename: string, base: string)
    ensures Stripped(filename) == base
            <==> filename == base + ".protodevel" || filename == base + ".proto"
                 || (filename == base && !EndsWith(base, ".protodevel") && !EndsWith(base, ".proto"))
  {
    if EndsWith(filename, ".protodevel") {
      assert filename == filename[..|filename| - 11] + ".protodevel";
    } else if EndsWith(filename, ".proto") {
      assert filename == filename[..|filename| - 6] + ".proto";
    }
    Ends(base, ".protodevel");
    Ends(base, ".proto");
    LastChar(base + ".proto", ".protodevel");
  }

  lemma Ends(base: string, suffix: string)
    ensures EndsWith(base + suffix, suffix) && (base + suffix)[..|base|] == base
  {
  }

  lemma LastChar(s: string, suffix: string)
    requires s != [] && suffix != [] && s[|s| - 1] != suffix[|suffix| - 1]
    ensures !EndsWith(s, suffix)
  {
  }
}
