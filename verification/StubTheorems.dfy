/** Which handler a call of a generated stub ends in. */
module StubTheorems {
  import opened Decimals
  import opened Generated
  import opened Emission
  import opened Wrappers

  predicate Distinct(methods: seq<Method>) {
    forall i, j | 0 <= i < j < |methods| :: methods[i].name != methods[j].name
  }

  // ------------------------------------------------------------- parts of items

  lemma {:induction false} MethodNamesConcat(a: seq<Item>, b: seq<Item>)
    ensures MethodNames(a + b) == MethodNames(a) + MethodNames(b)
  {
    if a == [] {
      assert a + b == b;
    } else {
      assert (a + b)[1..] == a[1..] + b;
      MethodNamesConcat(a[1..], b);
    }
  }

  lemma {:induction false} HandlerConcat(a: seq<Item>, b: seq<Item>, index: nat)
    ensures Handler(a + b, index) == if Handler(a, index).Some? then Handler(a, index) else Handler(b, index)
  {
    if a == [] {
      assert a + b == b;
    } else {
      assert (a + b)[1..] == a[1..] + b;
      HandlerConcat(a[1..], b, index);
    }
  }

  lemma {:induction false} NothingThere(items: seq<Item>, index: nat)
    ensures (forall x | x in items :: !x.MethodName?) ==> MethodNames(items) == []
    ensures (forall x | x in items :: !x.Case?) ==> Handler(items, index) == None
  {
    if items != [] {
      assert items[0] in items && forall x | x in items[1..] :: x in items;
      NothingThere(items[1..], index);
    }
  }

  /** An item of a loop's output comes from one element. */
  lemma {:induction false} FromElement<T>(ts: seq<T>, f: (T, nat) -> seq<Item>, first: nat, x: Item) returns (j: nat)
    requires x in Each(ts, f, first)
    ensures j < |ts| && x in f(ts[j], first + j)
  {
    if x in f(ts[0], first) {
      j := 0;
    } else {
      j := FromElement(ts[1..], f, first + 1, x);
      j := j + 1;
    }
  }

  lemma {:induction false} InEach<T>(ts: seq<T>, f: (T, nat) -> seq<Item>, first: nat, j: nat, x: Item)
    requires j < |ts| && x in f(ts[j], first + j)
    ensures x in Each(ts, f, first)
  {
    if j > 0 {
      InEach(ts[1..], f, first + 1, j - 1, x);
    }
  }

  // ------------------------------------------------------- tables of a service

  lemma {:induction false} NamesOf(prefix: string, service: string, methods: seq<Method>, first: nat)
    ensures var names := MethodNames(Each(methods, NameItem(prefix, service), first));
            && |names| == |methods|
            && forall i | 0 <= i < |methods| :: names[i] == "/" + prefix + service + "/" + methods[i].name
  {
    if methods != [] {
      var f := NameItem(prefix, service);
      NamesOf(prefix, service, methods[1..], first + 1);
      MethodNamesConcat(f(methods[0], first), Each(methods[1..], f, first + 1));
      assert MethodNames([]) == [];
    }
  }

  lemma {:induction false} CasesOf(methods: seq<Method>, first: nat, index: nat)
    requires first <= index < first + |methods|
    ensures Handler(Each(methods, CaseItem, first), index) == Some(methods[index - first].name)
  {
    SameDecimal(first, index);
    if first < index {
      CasesOf(methods[1..], first + 1, index);
    }
    HandlerConcat(CaseItem(methods[0], first), Each(methods[1..], CaseItem, first + 1), index);
    OneCase(methods[0], first, index);
  }

  lemma OneCase(m: Method, i: nat, index: nat)
    ensures Handler(CaseItem(m, i), index) == if DecimalNat(i) == DecimalNat(index) then Some(m.name) else None
  {
    assert Handler([], index) == None;
  }

  lemma SameDecimal(i: nat, j: nat)
    ensures DecimalNat(i) == DecimalNat(j) <==> i == j
  {
    DecimalNatValue(i);
    DecimalNatValue(j);
  }

  lemma {:induction false} IndexOfDistinct(names: seq<string>, i: nat)
    requires i < |names| && forall j, k | 0 <= j < k < |names| :: names[j] != names[k]
    ensures IndexOf(names, names[i]) == Some(i)
  {
    if i > 0 {
      assert names[i] == names[1..][i - 1];
      IndexOfDistinct(names[1..], i - 1);
    }
  }

  // --------------------------------------------------- the service as a whole

  /** The parts of a service's source, without the loops' definitions. */
  lemma ServiceParts(prefix: string, s: Service, index: nat)
    ensures var items := SourceServiceItems(prefix, s);
            && MethodNames(items) == MethodNames(Each(s.methods, NameItem(prefix, s.name), 0))
            && Handler(items, index) == Handler(Each(s.methods, CaseItem, 0), index)
  {
    hide Each, MethodNames, Handler, NameItem, CaseItem, StubItemsAt, DefinitionsAt;
    var names, stubs := Each(s.methods, NameItem(prefix, s.name), 0), Each(s.methods, StubItemsAt, 0);
    var cases, definitions := Each(s.methods, CaseItem, 0), Each(s.methods, DefinitionsAt, 0);
    KindsOfItems(prefix, s);
    NothingThere([Open(s.name)], index);
    NothingThere(names, index);
    var getter, members := [Getter(s.name), StubConstructor], SourceMembers();
    NothingThere(getter, index);
    NothingThere(members, index);
    NothingThere(stubs, index);
    NothingThere(cases, index);
    NothingThere(definitions, index);
    NothingThere([Close(s.name)], index);
    Eight([Open(s.name)], names, getter, stubs, members, cases, definitions, [Close(s.name)], index);
  }

  lemma Eight(a: seq<Item>, b: seq<Item>, c: seq<Item>, d: seq<Item>,
              d': seq<Item>, e: seq<Item>, f: seq<Item>, g: seq<Item>, i: nat)
    requires MethodNames(a) == MethodNames(c) == MethodNames(d) == MethodNames(d') == []
    requires MethodNames(e) == MethodNames(f) == MethodNames(g) == []
    requires Handler(a, i) == Handler(b, i) == Handler(c, i) == Handler(d, i) == Handler(d', i) == None
    requires Handler(f, i) == Handler(g, i) == None
    ensures MethodNames(a + b + c + d + d' + e + f + g) == MethodNames(b)
    ensures Handler(a + b + c + d + d' + e + f + g, i) == Handler(e, i)
  {
    hide MethodNames, Handler;
    MethodNamesConcat(a, b);
    MethodNamesConcat(a + b, c);
    MethodNamesConcat(a + b + c, d);
    MethodNamesConcat(a + b + c + d, d');
    MethodNamesConcat(a + b + c + d + d', e);
    MethodNamesConcat(a + b + c + d + d' + e, f);
    MethodNamesConcat(a + b + c + d + d' + e + f, g);
    HandlerConcat(a, b, i);
    HandlerConcat(a + b, c, i);
    HandlerConcat(a + b + c, d, i);
    HandlerConcat(a + b + c + d, d', i);
    HandlerConcat(a + b + c + d + d', e, i);
    HandlerConcat(a + b + c + d + d' + e, f, i);
    HandlerConcat(a + b + c + d + d' + e + f, g, i);
  }

  /** Every loop emits one kind of items. */
  lemma KindsOfItems(prefix: string, s: Service)
    ensures forall x | x in Each(s.methods, NameItem(prefix, s.name), 0) :: x.MethodName?
    ensures forall x | x in Each(s.methods, StubItemsAt, 0) :: x.StubCall?
    ensures forall x | x in Each(s.methods, CaseItem, 0) :: x.Case?
    ensures forall x | x in Each(s.methods, DefinitionsAt, 0) :: x.Defined?
  {
    hide Each;
    forall x | x in Each(s.methods, NameItem(prefix, s.name), 0)
      ensures x.MethodName?
    {
      var j := FromElement(s.methods, NameItem(prefix, s.name), 0, x);
    }
    forall x | x in Each(s.methods, StubItemsAt, 0)
      ensures x.StubCall?
    {
      var j := FromElement(s.methods, StubItemsAt, 0, x);
    }
    forall x | x in Each(s.methods, CaseItem, 0)
      ensures x.Case?
    {
      var j := FromElement(s.methods, CaseItem, 0, x);
    }
    forall x | x in Each(s.methods, DefinitionsAt, 0)
      ensures x.Defined?
    {
      var j := FromElement(s.methods, DefinitionsAt, 0, x);
    }
  }

  lemma ClientKinds(s: Service)
    ensures forall x | x in Each(s.methods, ClientItemsAt, 0) :: x.StubAlias? || x.StubDeclared?
    ensures forall x | x in Each(s.methods, DeclarationsAt, 0) :: x.Alias? || x.Declared?
  {
    hide Each;
    forall x | x in Each(s.methods, ClientItemsAt, 0)
      ensures x.StubAlias? || x.StubDeclared?
    {
      var j := FromElement(s.methods, ClientItemsAt, 0, x);
    }
    forall x | x in Each(s.methods, DeclarationsAt, 0)
      ensures x.Alias? || x.Declared?
    {
      var j := FromElement(s.methods, DeclarationsAt, 0, x);
    }
  }

  /** The index in a stub function: 0 if its method does not stream, else the method's own. */
  lemma IndexInStub(prefix: string, s: Service, i: nat, call: Item)
    requires i < |s.methods| && Distinct(s.methods)
    requires call in SourceServiceItems(prefix, s) && call.StubCall? && call.method' == s.methods[i].name
    ensures call.index == DecimalNat(if s.methods[i].NoStreaming() then 0 else i)
  {
    hide Each;
    KindsOfItems(prefix, s);
    assert call in Each(s.methods, StubItemsAt, 0);
    var j := FromElement(s.methods, StubItemsAt, 0, call);
    assert s.methods[j].name == s.methods[i].name;
    assert DecimalNat(0) == "0";
  }

  /** With index `k` in the text, a call ends in the handler of method `k`. */
  lemma IndexReaches(prefix: string, s: Service, k: nat, call: Item)
    requires k < |s.methods| && Distinct(s.methods) && call.StubCall? && call.index == DecimalNat(k)
    ensures Reached(SourceServiceItems(prefix, s), call) == Some(s.methods[k].name)
  {
    hide Each, MethodNames, Handler, IndexOf, NameItem, CaseItem, SourceServiceItems, DigitsValue, DecimalNat;
    var names := MethodNames(SourceServiceItems(prefix, s));
    ServiceParts(prefix, s, k);
    NamesOf(prefix, s.name, s.methods, 0);
    CasesOf(s.methods, 0, k);
    DecimalNatValue(k);
    forall i, j | 0 <= i < j < |names|
      ensures names[i] != names[j]
    {
      SamePrefix("/" + prefix + s.name + "/", s.methods[i].name, s.methods[j].name);
    }
    IndexOfDistinct(names, k);
  }

  lemma SamePrefix(a: string, b: string, c: string)
    ensures a + b == a + c <==> b == c
  {
    if a + b == a + c {
      assert b == (a + b)[|a|..] && c == (a + c)[|a|..];
    }
  }

  /**
   A call of a stub function ends in the handler of its own method exactly if the method
   streams in some direction or is the first of the service.
   */
  lemma StubReachesOwnHandler(prefix: string, s: Service, i: nat, call: Item)
    requires i < |s.methods| && Distinct(s.methods)
    requires call in SourceServiceItems(prefix, s) && call.StubCall? && call.method' == s.methods[i].name
    ensures Reached(SourceServiceItems(prefix, s), call) == Some(s.methods[i].name)
            <==> !s.methods[i].NoStreaming() || i == 0
    ensures s.methods[i].NoStreaming() ==> Reached(SourceServiceItems(prefix, s), call) == Some(s.methods[0].name)
  {
    hide SourceServiceItems, Reached, DecimalNat;
    IndexInStub(prefix, s, i, call);
    IndexReaches(prefix, s, if s.methods[i].NoStreaming() then 0 else i, call);
  }

  /** All stubs of a service work exactly if no method but the first is unary. */
  lemma AllStubsReachOwnHandlers(prefix: string, s: Service)
    requires Distinct(s.methods)
    ensures var items := SourceServiceItems(prefix, s);
            (forall call | call in items && call.StubCall? :: Reached(items, call) == Some(call.method'))
            <==> (forall i | 0 < i < |s.methods| :: !s.methods[i].NoStreaming())
  {
    hide Reached, DecimalNat, Each;
    var items := SourceServiceItems(prefix, s);
    if forall i | 0 < i < |s.methods| :: !s.methods[i].NoStreaming() {
      forall call | call in items && call.StubCall?
        ensures Reached(items, call) == Some(call.method')
      {
        KindsOfItems(prefix, s);
        var j := FromElement(s.methods, StubItemsAt, 0, call);
        StubReachesOwnHandler(prefix, s, j, call);
      }
    } else {
      var i :| 0 < i < |s.methods| && s.methods[i].NoStreaming();
      var call := StubItems(s.methods[i], DecimalNat(i))[0];
      InEach(s.methods, StubItemsAt, 0, i, call);
      StubReachesOwnHandler(prefix, s, i, call);
    }
  }
}
