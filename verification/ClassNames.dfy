/** The C++ class names of message types. */
module ClassNames {
  import opened Strings

  /** A message type: at the top of a package, or nested in another message. */
  datatype Descriptor =
    | TopLevel(package: string, name: string)
    | Nested(containing: Descriptor, name: string)
  {
    function FullName(): string {
      match this
      case TopLevel(package, name) => if package == "" then name else package + "." + name
      case Nested(containing, name) => containing.FullName() + "." + name
    }

    function Outer(): (d: Descriptor)
      ensures d.TopLevel?
    {
      match this
      case TopLevel(_, _) => this
      case Nested(containing, _) => containing.Outer()
    }

    /** The names from the top-level message down. */
    function Path(): (path: seq<string>)
      ensures path != []
    {
      match this
      case TopLevel(_, name) => [name]
      case Nested(containing, name) => containing.Path() + [name]
    }

    /** Names are identifiers: neither they nor the package hold a colon, and names hold no dot. */
    predicate Valid() {
      match this
      case TopLevel(package, name) => ':' !in package && IsName(name)
      case Nested(containing, name) => containing.Valid() && IsName(name)
    }
  }

  predicate IsName(name: string) {
    ':' !in name && '.' !in name
  }

  /** Every name with an underscore before it. */
  function Inner(names: seq<string>): string {
    if names == [] then "" else "_" + names[0] + Inner(names[1..])
  }

  /** The package with its parts joined by colons, ready for a name. */
  function PackageScope(package: string): string {
    if package == "" then "" else Join(Split(package, "."), "::") + "::"
  }

  /** What a message is called in C++. */
  function Scoped(d: Descriptor): string {
    "::" + PackageScope(d.Outer().package) + d.Path()[0] + Inner(d.Path()[1..])
  }

  // ------------------------------------------------------------------ proofs

  lemma {:induction false} OuterIsTop(d: Descriptor)
    ensures d.Outer().name == d.Path()[0]
    ensures d.Valid() ==> d.Outer().Valid() && forall n | n in d.Path() :: IsName(n)
  {
    if d.Nested? {
      OuterIsTop(d.containing);
    }
  }

  /** The names below the top, each with a dot before it. */
  function Dotted(names: seq<string>): string {
    if names == [] then "" else "." + names[0] + Dotted(names[1..])
  }

  lemma {:induction false} DottedAppend(names: seq<string>, name: string)
    ensures Dotted(names + [name]) == Dotted(names) + ("." + name)
    ensures Inner(names + [name]) == Inner(names) + ("_" + name)
  {
    if names == [] {
      assert names + [name] == [name];
      assert [name][1..] == [] && Dotted([]) == "" && Inner([]) == "";
    } else {
      DottedAppend(names[1..], name);
      assert (names + [name])[1..] == names[1..] + [name];
      Regroup("." + names[0], Dotted(names[1..]), ".", name);
      Regroup("_" + names[0], Inner(names[1..]), "_", name);
    }
  }

  lemma {:induction false} FullNameParts(d: Descriptor)
    ensures d.FullName() == d.Outer().FullName() + Dotted(d.Path()[1..])
  {
    match d
    case TopLevel(_, _) =>
      assert d.Path()[1..] == [];
    case Nested(containing, name) =>
      FullNameParts(containing);
      var path := containing.Path();
      assert (path + [name])[1..] == path[1..] + [name];
      DottedAppend(path[1..], name);
      Regroup(d.Outer().FullName(), Dotted(path[1..]), ".", name);
  }

  lemma {:induction false} DottedToUnderscores(names: seq<string>)
    requires forall n | n in names :: '.' !in n
    ensures Replaced(Dotted(names), ".", "_") == Inner(names)
  {
    if names != [] {
      DottedToUnderscores(names[1..]);
      hide Replaced;
      var rest := Dotted(names[1..]);
      ReplacedConcat("." + names[0], rest, '.', "_");
      ReplacedConcat(".", names[0], '.', "_");
      ReplacedDot("_");
      ReplacedSolid(names[0], '.', "_");
    } else {
      assert Dotted(names) == "";
    }
  }

  lemma ReplacedDot(to: string)
    ensures Replaced(".", ".", to) == to
  {
    assert "."[1..] == "" && to + "" == to;
  }

  lemma OuterToColons(package: string, name: string)
    requires '.' !in name
    ensures Replaced(TopLevel(package, name).FullName(), ".", "::") == PackageScope(package) + name
  {
    hide Replaced, Join, Split;
    ReplacedIsJoin(package, '.', "::");
    ReplacedSolid(name, '.', "::");
    if package != "" {
      ReplacedConcat(package + ".", name, '.', "::");
      ReplacedConcat(package, ".", '.', "::");
      ReplacedDot("::");
    }
  }

  /** The walk to the top, the cut at its name and the two rewritings. */
  method ClassName(descriptor: Descriptor, qualified: bool) returns (s: string)
    requires descriptor.Valid()
    ensures s == if qualified then Scoped(descriptor) else descriptor.Path()[0] + Inner(descriptor.Path()[1..])
  {
    hide Replaced, Dotted, Inner, PackageScope;
    var outer := descriptor;
    while outer.Nested?
      invariant outer.Outer() == descriptor.Outer()
      decreases outer
    {
      outer := outer.containing;
    }
    var outerName := outer.FullName();
    ghost var names := descriptor.Path()[1..];
    OuterIsTop(descriptor);
    FullNameParts(descriptor);
    After(outerName, Dotted(names));
    OuterToColons(outer.package, outer.name);
    assert forall n | n in names :: n in descriptor.Path();
    DottedToUnderscores(names);
    var innerName := descriptor.FullName()[|outerName|..];
    var inner := DotsToUnderscores(innerName);
    if qualified {
      var colons := DotsToColons(outerName);
      s := "::" + colons + inner;
      Regroup3("::", PackageScope(outer.package), outer.name, inner);
    } else {
      s := outer.name + inner;
    }
  }

  lemma After(a: string, b: string)
    ensures (a + b)[|a|..] == b
  {
  }

  lemma Regroup3(a: string, b: string, c: string, d: string)
    ensures a + (b + c) + d == a + b + c + d
  {
  }

  // ------------------------------------------------------------- who collides

  lemma {:induction false} InnerIsJoin(path: seq<string>)
    requires path != []
    ensures path[0] + Inner(path[1..]) == Join(path, "_")
    decreases |path|
  {
    if |path| == 1 {
      assert path[1..] == [];
    } else {
      InnerIsJoin(path[1..]);
      var rest := path[2..];
      assert path[1..][1..] == rest;
      assert path[0] + ("_" + path[1] + Inner(rest)) == path[0] + "_" + (path[1] + Inner(rest));
    }
  }

  lemma {:induction false} JoinHasNo(path: seq<string>, glue: string, c: char)
    requires path != [] && c !in glue && forall n | n in path :: c !in n
    ensures c !in Join(path, glue)
    decreases |path|
  {
    assert path[0] in path;
    if |path| > 1 {
      JoinHasNo(path[1..], glue, c);
    }
  }

  lemma ScopeCut(p: string, s: string, p': string, s': string)
    requires ':' !in s && ':' !in s' && ':' !in p && ':' !in p'
    requires PackageScope(p) + s == PackageScope(p') + s'
    ensures p == p' && s == s'
  {
    hide Replaced, Join, Split;
    HasColon(p, s);
    HasColon(p', s');
    ReplacedIsJoin(p, '.', "::");
    ReplacedIsJoin(p', '.', "::");
    if p != "" && p' != "" {
      var a, a' := Replaced(p, ".", "::"), Replaced(p', ".", "::");
      assert PackageScope(p) + s == (a + ":") + [':'] + s;
      assert PackageScope(p') + s' == (a' + ":") + [':'] + s';
      LastCut(':', a + ":", s, a' + ":", s');
      assert a == (a + ":")[..|a + ":"| - 1] == (a' + ":")[..|a' + ":"| - 1] == a';
      ColonsToDots(p);
      ColonsToDots(p');
    }
  }

  lemma HasColon(p: string, s: string)
    ensures p != "" ==> ':' in PackageScope(p) + s
    ensures p == "" ==> PackageScope(p) + s == s
  {
    hide Join, Split;
    if p != "" {
      assert (PackageScope(p) + s)[|Join(Split(p, "."), "::")|] == ':';
    }
  }

  /** Two messages share a class name exactly if their packages and the names joined by underscores agree. */
  lemma SameClassName(d: Descriptor, e: Descriptor)
    requires d.Valid() && e.Valid()
    ensures Scoped(d) == Scoped(e)
            <==> d.Outer().package == e.Outer().package && Join(d.Path(), "_") == Join(e.Path(), "_")
  {
    hide Join, Inner, PackageScope;
    var p, q := d.Path(), e.Path();
    InnerIsJoin(p);
    InnerIsJoin(q);
    Rest(d);
    Rest(e);
    OuterIsTop(d);
    OuterIsTop(e);
    JoinHasNo(p, "_", ':');
    JoinHasNo(q, "_", ':');
    if Scoped(d) == Scoped(e) {
      assert PackageScope(d.Outer().package) + Join(p, "_") == Scoped(d)[2..];
      assert PackageScope(e.Outer().package) + Join(q, "_") == Scoped(e)[2..];
      ScopeCut(d.Outer().package, Join(p, "_"), e.Outer().package, Join(q, "_"));
    }
  }

  lemma Rest(d: Descriptor)
    ensures Scoped(d) == "::" + (PackageScope(d.Outer().package) + (d.Path()[0] + Inner(d.Path()[1..])))
  {
    hide Inner, PackageScope;
  }

  lemma {:induction false} PathDetermines(d: Descriptor, e: Descriptor)
    requires d.Outer().package == e.Outer().package && d.Path() == e.Path()
    ensures d == e
  {
    assert d.Path()[|d.Path()| - 1] == d.name && e.Path()[|e.Path()| - 1] == e.name;
    if d.Nested? && e.Nested? {
      var p, q := d.containing.Path(), e.containing.Path();
      assert p == d.Path()[..|d.Path()| - 1] == q;
      PathDetermines(d.containing, e.containing);
    }
  }

  /** Without underscores in the message names no two messages share a class name. */
  lemma ClassNamesDiffer(d: Descriptor, e: Descriptor)
    requires d.Valid() && e.Valid()
    requires (forall n | n in d.Path() :: '_' !in n) && (forall n | n in e.Path() :: '_' !in n)
    ensures Scoped(d) == Scoped(e) <==> d == e
  {
    hide Scoped, Join, Split;
    SameClassName(d, e);
    if Scoped(d) == Scoped(e) {
      SplitJoin(d.Path(), '_');
      SplitJoin(e.Path(), '_');
      PathDetermines(d, e);
    }
  }

  /** With them two can: a message with an underscore, and one nested where the underscore is. */
  lemma UnderscoresCollide(package: string, a: string, b: string)
    requires ':' !in package && IsName(a) && IsName(b)
    ensures Scoped(TopLevel(package, a + "_" + b)) == Scoped(Nested(TopLevel(package, a), b))
  {
    var d, e := TopLevel(package, a + "_" + b), Nested(TopLevel(package, a), b);
    assert d.Path() == [a + "_" + b] && e.Path() == [a] + [b];
    SameClassName(d, e);
    assert e.Path()[1..] == [b];
  }
}
