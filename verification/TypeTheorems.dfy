/** Whether the source defines the functions of class `Service` that the header declares. */
module TypeTheorems {
  import opened ClassNames
  import opened Decimals
  import opened Names
  import opened Generated
  import opened Emission
  import opened StubTheorems

  /** Every definition has a declaration with the same name, and a result and parameters of the same types. */
  ghost predicate AllDeclared(header: seq<Item>, source: seq<Item>) {
    forall d | d in source && d.Defined? :: IsDeclared(header, d)
  }

  ghost predicate IsDeclared(header: seq<Item>, d: Item)
    requires d.Defined?
  {
    exists h :: h in header && h.Declared? && h.method' == d.method'
                && Meaning(header, h.result) == Meaning(header, d.result)
                && Meanings(header, h.parameters) == Meanings(header, d.parameters)
  }

  /** A method whose `_Writer` is declared, with the same response class as `m`. */
  predicate WriterOf(l: Method, m: Method) {
    l.name == "ListFeatures" && l.serverStreaming && Scoped(l.output) == Scoped(m.output)
  }

  /** Every server-streaming method has the response class of a streaming method named `ListFeatures`. */
  ghost predicate WritersFit(s: Service) {
    forall m | m in s.methods && m.ServerOnlyStreaming() :: exists l :: l in s.methods && WriterOf(l, m)
  }

  // -------------------------------------------------------- what aliases mean

  lemma {:induction false} MeaningOf(items: seq<Item>, x: Item)
    requires x in items && x.Alias?
    requires forall y | y in items && y.Alias? && y.name == x.name :: y == x
    ensures Meaning(items, x.name) == x.target
  {
    if items[0] != x {
      assert items[0] in items && forall y | y in items[1..] :: y in items;
      MeaningOf(items[1..], x);
    }
  }

  lemma {:induction false} NoMeaning(items: seq<Item>, name: string)
    requires forall x | x in items :: !x.Alias? || x.name != name
    ensures Meaning(items, name) == name
  {
    if items != [] {
      assert items[0] in items && forall x | x in items[1..] :: x in items;
      NoMeaning(items[1..], name);
    }
  }

  lemma Suffixes(a: string, b: string)
    ensures a + "_Writer" == b + "_Writer" <==> a == b
    ensures a + "_Writer" != b + "_Replier" && a + "_Writer" != b + "_Reader" && a + "_Writer" != b + "_ReaderSptr"
  {
    var s, t := a + "_Writer", b + "_Writer";
    if s == t {
      assert a == s[..|a|] && b == t[..|b|];
    }
    var u, r, p := b + "_Replier", b + "_Reader", b + "_ReaderSptr";
    assert s[|s| - 3] == 't';
    assert u[|u| - 3] == 'i' && r[|r| - 3] == 'd' && p[|p| - 3] == 'p';
  }

  /** Every alias of class `Service` comes from one method. */
  lemma AliasesOf(s: Service, x: Item) returns (j: nat)
    requires x in HeaderServiceItems(s) && x.Alias?
    ensures j < |s.methods|
    ensures var m := s.methods[j];
            (x == WriterItem(m) && m.serverStreaming) || x.name == m.name + "_Replier"
            || x.name == m.name + "_Reader" || x.name == m.name + "_ReaderSptr"
  {
    hide Each, Scoped;
    ClientKinds(s);
    assert x in Each(s.methods, DeclarationsAt, 0);
    j := FromElement(s.methods, DeclarationsAt, 0, x);
  }

  lemma ItemsOf(s: Service, i: nat, x: Item)
    requires i < |s.methods| && x in DeclarationItems(s.methods[i])
    ensures x in HeaderServiceItems(s)
  {
    hide Each, DeclarationItems;
    InEach(s.methods, DeclarationsAt, 0, i, x);
  }

  /** `ListFeatures_Writer` and the like mean the writer of the method, if that writes. */
  lemma WriterMeans(s: Service, i: nat)
    requires i < |s.methods| && Distinct(s.methods) && s.methods[i].serverStreaming
    ensures Meaning(HeaderServiceItems(s), s.methods[i].name + "_Writer") == WriterType(s.methods[i])
  {
    hide Each, Scoped, HeaderServiceItems, Meaning;
    var m := s.methods[i];
    var items := HeaderServiceItems(s);
    ItemsOf(s, i, WriterItem(m));
    forall y | y in items && y.Alias? && y.name == m.name + "_Writer"
      ensures y == WriterItem(m)
    {
      var j := AliasesOf(s, y);
      Suffixes(m.name, s.methods[j].name);
    }
    MeaningOf(items, WriterItem(m));
  }

  lemma NoWriterMeans(s: Service, name: string)
    requires forall l | l in s.methods :: l.name != name || !l.serverStreaming
    ensures Meaning(HeaderServiceItems(s), name + "_Writer") == name + "_Writer"
  {
    hide Each, Scoped, HeaderServiceItems, Meaning;
    var items := HeaderServiceItems(s);
    forall x | x in items
      ensures !x.Alias? || x.name != name + "_Writer"
    {
      if x.Alias? {
        var j := AliasesOf(s, x);
        Suffixes(name, s.methods[j].name);
      }
    }
    NoMeaning(items, name + "_Writer");
  }

  // -------------------------------------------------------- who is declared

  /** The definitions of all methods but the server-streaming ones are the declarations. */
  lemma OthersDeclared(s: Service, i: nat, d: Item)
    requires i < |s.methods| && !s.methods[i].ServerOnlyStreaming() && d in DefinitionItems(s.methods[i])
    ensures d.Defined? && IsDeclared(HeaderServiceItems(s), d)
  {
    hide Each, Scoped, HeaderServiceItems, Meanings, Meaning;
    var h := Declared(d.method', d.result, d.parameters);
    ItemsOf(s, i, h);
  }

  lemma WriterMeaning(s: Service, m: Method)
    requires Distinct(s.methods)
    ensures Meaning(HeaderServiceItems(s), "ListFeatures_Writer") == WriterType(m)
            <==> exists l :: l in s.methods && WriterOf(l, m)
  {
    hide Each, Scoped, HeaderServiceItems, Meaning;
    assert "ListFeatures" + "_Writer" == "ListFeatures_Writer";
    if l :| l in s.methods && l.name == "ListFeatures" && l.serverStreaming {
      var i :| 0 <= i < |s.methods| && s.methods[i] == l;
      WriterMeans(s, i);
      Inside(Scoped(l.output), Scoped(m.output));
      forall l' | l' in s.methods && WriterOf(l', m)
        ensures l' == l
      {
        var j :| 0 <= j < |s.methods| && s.methods[j] == l';
      }
    } else {
      NoWriterMeans(s, "ListFeatures");
      assert "ListFeatures_Writer"[0] == 'L' && WriterType(m)[0] == ':';
    }
  }

  lemma Inside(a: string, b: string)
    ensures "::grpc_cb::ServerWriter<" + a + ">" == "::grpc_cb::ServerWriter<" + b + ">" <==> a == b
  {
    Middle("::grpc_cb::ServerWriter<", a, b, ">");
  }

  lemma SecondMeaning(items: seq<Item>, x: string, y: string, x': string, y': string)
    ensures Meanings(items, [x, y]) == Meanings(items, [x', y']) ==> Meaning(items, y) == Meaning(items, y')
    ensures Meaning(items, y) == Meaning(items, y') ==> Meanings(items, [x, y]) == Meanings(items, [x, y'])
  {
    hide Meaning;
    if Meanings(items, [x, y]) == Meanings(items, [x', y']) {
      assert Meanings(items, [x, y])[1] == Meanings(items, [x', y'])[1];
    }
  }

  /** The two definitions of a server-streaming method, with the type of their second parameter. */
  lemma StreamingDefinitions(m: Method, d: Item)
    requires m.ServerOnlyStreaming()
    ensures d in DefinitionItems(m) <==>
              d == Defined(m.name, "void", ["grpc_byte_buffer", "ListFeatures_Writer"])
              || d == Defined(m.name, "void", [Scoped(m.input), "ListFeatures_Writer"])
    ensures d.Declared? && d in DeclarationItems(m) <==>
              d == Declared(m.name, "void", ["grpc_byte_buffer", m.name + "_Writer"])
              || d == Declared(m.name, "void", [Scoped(m.input), m.name + "_Writer"])
  {
    hide Scoped;
  }

  lemma StreamingDeclared(s: Service, i: nat, d: Item)
    requires i < |s.methods| && Distinct(s.methods)
    requires s.methods[i].ServerOnlyStreaming() && d in DefinitionItems(s.methods[i])
    ensures d.Defined?
    ensures IsDeclared(HeaderServiceItems(s), d) <==> exists l :: l in s.methods && WriterOf(l, s.methods[i])
  {
    hide Each, Scoped, HeaderServiceItems, Meaning, Meanings, DefinitionItems, DeclarationItems, WriterOf, WriterType;
    var m, items := s.methods[i], HeaderServiceItems(s);
    StreamingDefinitions(m, d);
    WriterMeans(s, i);
    WriterMeaning(s, m);
    var x, w := d.parameters[0], m.name + "_Writer";
    var h := Declared(m.name, "void", [x, w]);
    StreamingDefinitions(m, h);
    ItemsOf(s, i, h);
    SecondMeaning(items, x, w, x, "ListFeatures_Writer");
    forall h' | h' in items && h'.Declared? && h'.method' == m.name
                && Meanings(items, h'.parameters) == Meanings(items, d.parameters)
      ensures Meaning(items, "ListFeatures_Writer") == WriterType(m)
    {
      DeclarationsOf(s, i, h');
      StreamingDefinitions(m, h');
      SecondMeaning(items, h'.parameters[0], w, x, "ListFeatures_Writer");
    }
  }

  lemma DeclarationsOf(s: Service, i: nat, h: Item)
    requires i < |s.methods| && Distinct(s.methods)
    requires h in HeaderServiceItems(s) && h.Declared? && h.method' == s.methods[i].name
    ensures h in DeclarationItems(s.methods[i])
  {
    hide Each, Scoped;
    ClientKinds(s);
    assert h in Each(s.methods, DeclarationsAt, 0);
    var j := FromElement(s.methods, DeclarationsAt, 0, h);
  }

  /** The source defines only what the header declares exactly if the writers fit. */
  lemma AllDeclaredIff(prefix: string, s: Service)
    requires Distinct(s.methods)
    ensures AllDeclared(HeaderServiceItems(s), SourceServiceItems(prefix, s))
            <==> WritersFit(s)
  {
    hide Each, HeaderServiceItems, DefinitionItems, WriterOf, IsDeclared;
    var header, source := HeaderServiceItems(s), SourceServiceItems(prefix, s);
    KindsOfItems(prefix, s);
    if AllDeclared(header, source) {
      forall m | m in s.methods && m.ServerOnlyStreaming()
        ensures exists l :: l in s.methods && WriterOf(l, m)
      {
        var i :| 0 <= i < |s.methods| && s.methods[i] == m;
        var d := Defined(m.name, "void", ["grpc_byte_buffer", "ListFeatures_Writer"]);
        StreamingDefinitions(m, d);
        InEach(s.methods, DefinitionsAt, 0, i, d);
        StreamingDeclared(s, i, d);
      }
    }
    if WritersFit(s) {
      forall d | d in source && d.Defined?
        ensures IsDeclared(header, d)
      {
        var i := FromElement(s.methods, DefinitionsAt, 0, d);
        if s.methods[i].ServerOnlyStreaming() {
          StreamingDeclared(s, i, d);
        } else {
          OthersDeclared(s, i, d);
        }
      }
    }
  }

  /** Every case of `CallMethod` calls a function that the header declares, with its parameters. */
  lemma CasesAreDeclared(prefix: string, s: Service, c: Item)
    requires c in SourceServiceItems(prefix, s) && c.Case?
    ensures Declared(c.handler, "void", c.arguments) in HeaderServiceItems(s)
  {
    hide Each, Scoped, HeaderServiceItems;
    KindsOfItems(prefix, s);
    var i := FromElement(s.methods, CaseItem, 0, c);
    ItemsOf(s, i, Declared(c.handler, "void", c.arguments));
  }

  // --------------------------------------------------------------- class Stub

  lemma ClientItemsOf(s: Service, i: nat, x: Item)
    requires i < |s.methods| && x in ClientItems(s.methods[i])
    ensures x in HeaderServiceItems(s)
  {
    hide Each, ClientItems;
    InEach(s.methods, ClientItemsAt, 0, i, x);
  }

  /** The two functions of one method. */
  lemma SameFunctions(m: Method, index: string)
    ensures forall c | c in StubItems(m, index) ::
              c.StubCall? && StubDeclared(c.method', c.variant, c.result, c.parameters) in ClientItems(m)
    ensures forall d | d in ClientItems(m) && d.StubDeclared? ::
              exists k :: StubCall(d.method', d.variant, d.result, d.parameters, k) in StubItems(m, index)
  {
    hide Scoped;
    forall d | d in ClientItems(m) && d.StubDeclared?
      ensures exists k :: StubCall(d.method', d.variant, d.result, d.parameters, k) in StubItems(m, index)
    {
      var k := if m.NoStreaming() then "0" else index;
      assert StubCall(d.method', d.variant, d.result, d.parameters, k) in StubItems(m, index);
    }
  }

  /** Every stub function of the source is declared with its types. */
  lemma StubsAreDeclared(prefix: string, s: Service, c: Item)
    requires c in SourceServiceItems(prefix, s) && c.StubCall?
    ensures StubDeclared(c.method', c.variant, c.result, c.parameters) in HeaderServiceItems(s)
  {
    hide Each, StubItems, ClientItems, DecimalNat, HeaderServiceItems;
    KindsOfItems(prefix, s);
    var i := FromElement(s.methods, StubItemsAt, 0, c);
    SameFunctions(s.methods[i], DecimalNat(i));
    ClientItemsOf(s, i, StubDeclared(c.method', c.variant, c.result, c.parameters));
  }

  /** Every stub function of the header is defined with its types. */
  lemma StubsAreDefined(prefix: string, s: Service, d: Item)
    ensures d in HeaderServiceItems(s) && d.StubDeclared? ==>
              exists k :: StubCall(d.method', d.variant, d.result, d.parameters, k) in SourceServiceItems(prefix, s)
  {
    hide Each, StubItems, ClientItems, DecimalNat, HeaderServiceItems;
    if d in HeaderServiceItems(s) && d.StubDeclared? {
      var i := ClientMethodOf(s, d);
      SameFunctions(s.methods[i], DecimalNat(i));
      var k :| StubCall(d.method', d.variant, d.result, d.parameters, k) in StubItems(s.methods[i], DecimalNat(i));
      InEach(s.methods, StubItemsAt, 0, i, StubCall(d.method', d.variant, d.result, d.parameters, k));
    }
  }

  /** A type of the library that needs no alias. */
  predicate OfLibrary(t: string) {
    t in ["void", "::grpc_cb::Status", "::grpc_cb::ErrorCb", "::grpc_cb::StatusCb"]
  }

  /** A type of the library, a message class of the method, or an alias among the items. */
  ghost predicate IsKnown(items: seq<Item>, m: Method, t: string) {
    OfLibrary(t) || t == Scoped(m.input) || t == Scoped(m.output)
    || exists x :: x in items && x.StubAlias? && x.name == t
  }

  lemma LibraryKnown(items: seq<Item>, m: Method)
    ensures IsKnown(items, m, "void") && IsKnown(items, m, "::grpc_cb::Status")
    ensures IsKnown(items, m, "::grpc_cb::ErrorCb") && IsKnown(items, m, "::grpc_cb::StatusCb")
    ensures IsKnown(items, m, Scoped(m.input)) && IsKnown(items, m, Scoped(m.output))
  {
    hide Scoped;
  }

  lemma AliasKnown(items: seq<Item>, m: Method, k: nat)
    ensures k < |items| && items[k].StubAlias? ==> IsKnown(items, m, items[k].name)
  {
    hide Scoped, OfLibrary;
    if k < |items| {
      assert items[k] in items;
    }
  }

  /** The types in the declarations of one method. */
  lemma ClientTypesKnown(m: Method, d: Item, t: string)
    requires d in ClientItems(m) && d.StubDeclared? && (t == d.result || t in d.parameters)
    ensures IsKnown(ClientItems(m), m, t)
  {
    hide Scoped, IsKnown;
    var items := ClientItems(m);
    LibraryKnown(items, m);
    AliasKnown(items, m, 0);
    AliasKnown(items, m, 1);
    AliasKnown(items, m, 2);
  }

  /** Every type in a declaration of class `Stub` is of the library, a message class, or an alias made there. */
  lemma StubTypesKnown(s: Service, d: Item, t: string)
    ensures d in HeaderServiceItems(s) && d.StubDeclared? && (t == d.result || t in d.parameters) ==>
              || OfLibrary(t)
              || (exists m :: m in s.methods && (t == Scoped(m.input) || t == Scoped(m.output)))
              || exists target :: StubAlias(t, target) in HeaderServiceItems(s)
  {
    hide Each, Scoped, HeaderServiceItems, ClientItems, OfLibrary;
    if d in HeaderServiceItems(s) && d.StubDeclared? && (t == d.result || t in d.parameters) {
      var i := ClientMethodOf(s, d);
      var m := s.methods[i];
      ClientTypesKnown(m, d, t);
      if x :| x in ClientItems(m) && x.StubAlias? && x.name == t {
        ClientItemsOf(s, i, x);
        assert x == StubAlias(t, x.target);
      }
    }
  }

  lemma ClientMethodOf(s: Service, d: Item) returns (i: nat)
    requires d in HeaderServiceItems(s) && d.StubDeclared?
    ensures i < |s.methods| && d in ClientItems(s.methods[i])
  {
    hide Each, ClientItems;
    ClientKinds(s);
    i := FromElement(s.methods, ClientItemsAt, 0, d);
  }

  // ---------------------------------------------------- what a linker looks for

  /** The source defines what the header declares here, with the same types. */
  ghost predicate IsDefined(header: seq<Item>, source: seq<Item>, h: Item) {
    match h
    case Declared(name, result, parameters) =>
      exists d :: d in source && d.Defined? && d.method' == name
                  && Meaning(header, d.result) == Meaning(header, result)
                  && Meanings(header, d.parameters) == Meanings(header, parameters)
    case StubDeclared(name, variant, result, parameters) =>
      exists k :: StubCall(name, variant, result, parameters, k) in source
    case MemberDeclared(member) => MemberDefined(member) in source
    case StubConstructorDeclared => StubConstructor in source
    case GetterDeclared => exists x :: x in source && x.Getter?
    case GetDescriptor => exists x :: x in source && x.Getter?
    case _ => true
  }

  lemma SourceItemsOf(prefix: string, s: Service, i: nat, x: Item)
    requires i < |s.methods| && x in DefinitionItems(s.methods[i])
    ensures x in SourceServiceItems(prefix, s)
  {
    hide Each, DefinitionItems;
    InEach(s.methods, DefinitionsAt, 0, i, x);
  }

  lemma DefinitionsOf(prefix: string, s: Service, i: nat, d: Item)
    requires i < |s.methods| && Distinct(s.methods)
    requires d in SourceServiceItems(prefix, s) && d.Defined? && d.method' == s.methods[i].name
    ensures d in DefinitionItems(s.methods[i])
  {
    hide Each, Scoped;
    KindsOfItems(prefix, s);
    var j := FromElement(s.methods, DefinitionsAt, 0, d);
  }

  /** The declarations of all methods but the server-streaming ones are the definitions. */
  lemma OthersDefined(prefix: string, s: Service, i: nat, h: Item)
    requires i < |s.methods| && !s.methods[i].ServerOnlyStreaming()
    requires h in DeclarationItems(s.methods[i]) && h.Declared?
    ensures IsDefined(HeaderServiceItems(s), SourceServiceItems(prefix, s), h)
  {
    hide Each, Scoped, HeaderServiceItems, SourceServiceItems, Meanings, Meaning;
    SourceItemsOf(prefix, s, i, Defined(h.method', h.result, h.parameters));
  }

  lemma StreamingDefined(prefix: string, s: Service, i: nat, h: Item)
    requires i < |s.methods| && Distinct(s.methods)
    requires s.methods[i].ServerOnlyStreaming() && h in DeclarationItems(s.methods[i]) && h.Declared?
    ensures IsDefined(HeaderServiceItems(s), SourceServiceItems(prefix, s), h)
            <==> exists l :: l in s.methods && WriterOf(l, s.methods[i])
  {
    hide Each, Scoped, HeaderServiceItems, SourceServiceItems, Meaning, Meanings, DefinitionItems, DeclarationItems;
    hide WriterOf, WriterType;
    var m, header, source := s.methods[i], HeaderServiceItems(s), SourceServiceItems(prefix, s);
    StreamingDefinitions(m, h);
    WriterMeans(s, i);
    WriterMeaning(s, m);
    var x, w := h.parameters[0], m.name + "_Writer";
    var d := Defined(m.name, "void", [x, "ListFeatures_Writer"]);
    StreamingDefinitions(m, d);
    SourceItemsOf(prefix, s, i, d);
    SecondMeaning(header, x, "ListFeatures_Writer", x, w);
    forall d' | d' in source && d'.Defined? && d'.method' == m.name
                && Meanings(header, d'.parameters) == Meanings(header, h.parameters)
      ensures Meaning(header, "ListFeatures_Writer") == WriterType(m)
    {
      DefinitionsOf(prefix, s, i, d');
      StreamingDefinitions(m, d');
      SecondMeaning(header, d'.parameters[0], "ListFeatures_Writer", x, w);
    }
  }

  /** All that is declared besides the functions of the methods is defined for every service. */
  lemma RestDefined(prefix: string, s: Service, h: Item)
    requires h in HeaderServiceItems(s) && !h.Declared?
    ensures IsDefined(HeaderServiceItems(s), SourceServiceItems(prefix, s), h)
  {
    hide Each, CONSTRUCTOR, DESTRUCTOR, GET_METHOD_NAME, CALL_METHOD;
    ClientKinds(s);
    StubsAreDefined(prefix, s, h);
    assert Getter(s.name) in SourceServiceItems(prefix, s);
  }

  /**
   The source defines all that the header declares, getter, stubs, members and the functions
   of the methods, exactly if the writers fit.
   */
  lemma AllDefinedIff(prefix: string, s: Service)
    requires Distinct(s.methods)
    ensures (forall h | h in HeaderServiceItems(s) ::
               IsDefined(HeaderServiceItems(s), SourceServiceItems(prefix, s), h))
            <==> WritersFit(s)
  {
    hide Each, HeaderServiceItems, SourceServiceItems, DeclarationItems, WriterOf, IsDefined;
    var header, source := HeaderServiceItems(s), SourceServiceItems(prefix, s);
    if forall h | h in header :: IsDefined(header, source, h) {
      forall m | m in s.methods && m.ServerOnlyStreaming()
        ensures exists l :: l in s.methods && WriterOf(l, m)
      {
        var i :| 0 <= i < |s.methods| && s.methods[i] == m;
        var h := Declared(m.name, "void", ["grpc_byte_buffer", m.name + "_Writer"]);
        StreamingDefinitions(m, h);
        ItemsOf(s, i, h);
        StreamingDefined(prefix, s, i, h);
      }
    }
    if WritersFit(s) {
      forall h | h in header
        ensures IsDefined(header, source, h)
      {
        if h.Declared? {
          var i := DeclaredBy(s, h);
          if s.methods[i].ServerOnlyStreaming() {
            StreamingDefined(prefix, s, i, h);
          } else {
            OthersDefined(prefix, s, i, h);
          }
        } else {
          RestDefined(prefix, s, h);
        }
      }
    }
  }

  lemma DeclaredBy(s: Service, h: Item) returns (i: nat)
    requires h in HeaderServiceItems(s) && h.Declared?
    ensures i < |s.methods| && h in DeclarationItems(s.methods[i])
  {
    hide Each, DeclarationItems;
    ClientKinds(s);
    i := FromElement(s.methods, DeclarationsAt, 0, h);
  }
}
