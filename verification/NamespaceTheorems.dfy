/** How the namespaces of the generated files nest. */
module NamespaceTheorems {
  import opened Strings
  import opened Generated
  import opened Emission
  import opened Names
  import opened StubTheorems

  // ------------------------------------------------------------ concatenation

  /** The state after `a` is where `b` goes on. */
  lemma {:induction false} NestConcat(a: seq<Item>, b: seq<Item>, names: seq<string>)
    ensures Nest(a + b, names) == if Nest(a, names).Broken? then Broken else Nest(b, Nest(a, names).names)
  {
    if a == [] {
      assert a + b == b;
    } else {
      assert (a + b)[1..] == a[1..] + b && (a + b)[0] == a[0];
      if a[0].Open? {
        NestConcat(a[1..], b, names + [a[0].name]);
      } else if a[0].Close? {
        if names != [] && names[|names| - 1] == a[0].comment {
          NestConcat(a[1..], b, names[..|names| - 1]);
        }
      } else {
        NestConcat(a[1..], b, names);
      }
    }
  }

  lemma {:induction false} DepthConcat(a: seq<Item>, b: seq<Item>, depth: nat)
    ensures Depth(a + b, depth) == if Depth(a, depth) < 0 then -1 else Depth(b, Depth(a, depth))
  {
    if a == [] {
      assert a + b == b;
    } else {
      assert (a + b)[1..] == a[1..] + b && (a + b)[0] == a[0];
      if a[0].Open? {
        DepthConcat(a[1..], b, depth + 1);
      } else if a[0].Close? {
        if depth > 0 {
          DepthConcat(a[1..], b, depth - 1);
        }
      } else {
        DepthConcat(a[1..], b, depth);
      }
    }
  }

  /** Where the comments are right they are also the braces. */
  lemma {:induction false} NestDepth(items: seq<Item>, names: seq<string>)
    requires Nest(items, names).Names?
    ensures Depth(items, |names|) == |Nest(items, names).names|
  {
    if items != [] {
      if items[0].Open? {
        NestDepth(items[1..], names + [items[0].name]);
      } else if items[0].Close? {
        NestDepth(items[1..], names[..|names| - 1]);
      } else {
        NestDepth(items[1..], names);
      }
    }
  }

  lemma {:induction false} ScopesConcat(a: seq<Item>, b: seq<Item>, names: seq<string>)
    requires Nest(a, names).Names?
    ensures Scopes(a + b, names) == Scopes(a, names) + Scopes(b, Nest(a, names).names)
  {
    if a == [] {
      assert a + b == b;
    } else {
      assert (a + b)[1..] == a[1..] + b && (a + b)[0] == a[0];
      if a[0].Open? {
        ScopesConcat(a[1..], b, names + [a[0].name]);
      } else if a[0].Close? {
        ScopesConcat(a[1..], b, names[..|names| - 1]);
      } else {
        ScopesConcat(a[1..], b, names);
      }
    }
  }

  /** Items that neither open nor close nor hold a stub. */
  predicate IsFlat(x: Item) {
    !x.Open? && !x.Close? && !x.StubClass? && !x.StubConstructor?
  }

  lemma {:induction false} FlatItems(items: seq<Item>, names: seq<string>)
    requires forall x | x in items :: IsFlat(x)
    ensures Nest(items, names) == Names(names) && Scopes(items, names) == []
  {
    if items != [] {
      assert items[0] in items && forall x | x in items[1..] :: x in items;
      FlatItems(items[1..], names);
    }
  }

  // ------------------------------------------------------------- one service

  /** A service opens and closes its own namespace, around flat items and one stub. */
  lemma ServiceNests(name: string, a: seq<Item>, stub: Item, b: seq<Item>, names: seq<string>)
    requires (forall x | x in a :: IsFlat(x)) && (forall x | x in b :: IsFlat(x))
    requires stub.StubClass? || stub.StubConstructor?
    ensures var items := [Open(name)] + a + [stub] + b + [Close(name)];
            Nest(items, names) == Names(names) && Scopes(items, names) == [names + [name]]
  {
    var inside := names + [name];
    assert inside[..|inside| - 1] == names;
    FlatItems(a, inside);
    FlatItems(b, inside);
    NestOne(Open(name), names);
    NestOne(stub, inside);
    NestOne(Close(name), inside);
    hide Nest, Scopes;
    Extend([Open(name)], a, names);
    Extend([Open(name)] + a, [stub], names);
    Extend([Open(name)] + a + [stub], b, names);
    Extend([Open(name)] + a + [stub] + b, [Close(name)], names);
  }

  lemma NestOne(x: Item, names: seq<string>)
    ensures Nest([x], names)
            == if x.Open? then Names(names + [x.name])
               else if x.Close? then
                 if names != [] && names[|names| - 1] == x.comment then Names(names[..|names| - 1]) else Broken
               else Names(names)
    ensures Scopes([x], names) == if x.StubClass? || x.StubConstructor? then [names] else []
  {
    assert [x][1..] == [];
    assert forall n :: Nest([], n) == Names(n);
    assert forall n :: Scopes([], n) == [];
  }

  lemma Extend(a: seq<Item>, b: seq<Item>, names: seq<string>)
    requires Nest(a, names).Names?
    ensures Nest(a + b, names) == Nest(b, Nest(a, names).names)
    ensures Scopes(a + b, names) == Scopes(a, names) + Scopes(b, Nest(a, names).names)
  {
    NestConcat(a, b, names);
    ScopesConcat(a, b, names);
  }

  lemma SourceServiceNests(prefix: string, s: Service, names: seq<string>)
    ensures Nest(SourceServiceItems(prefix, s), names) == Names(names)
    ensures Scopes(SourceServiceItems(prefix, s), names) == [names + [s.name]]
  {
    hide Each, Nest, Scopes;
    var a := Each(s.methods, NameItem(prefix, s.name), 0) + [Getter(s.name)];
    var stubs, cases := Each(s.methods, StubItemsAt, 0), Each(s.methods, CaseItem, 0);
    var b := stubs + SourceMembers() + cases + Each(s.methods, DefinitionsAt, 0);
    KindsOfItems(prefix, s);
    ServiceNests(s.name, a, StubConstructor, b, names);
    assert SourceServiceItems(prefix, s) == [Open(s.name)] + a + [StubConstructor] + b + [Close(s.name)];
  }

  lemma HeaderServiceNests(s: Service, names: seq<string>)
    ensures Nest(HeaderServiceItems(s), names) == Names(names)
    ensures Scopes(HeaderServiceItems(s), names) == [names + [s.name]]
  {
    hide Each, Nest, Scopes;
    var b := [StubConstructorDeclared] + Each(s.methods, ClientItemsAt, 0) + HeaderMembers()
             + Each(s.methods, DeclarationsAt, 0) + [GetDescriptor];
    ClientKinds(s);
    ServiceNests(s.name, [GetterDeclared], StubClass, b, names);
    assert HeaderServiceItems(s) == [Open(s.name)] + [GetterDeclared] + [StubClass] + b + [Close(s.name)];
  }

  // ------------------------------------------------------------ all services

  /** The namespaces of all services, given those around them. */
  function ServiceScopes(services: seq<Service>, names: seq<string>): (scopes: seq<seq<string>>)
    ensures |scopes| == |services|
    ensures forall i | 0 <= i < |services| :: scopes[i] == names + [services[i].name]
  {
    if services == [] then [] else [names + [services[0].name]] + ServiceScopes(services[1..], names)
  }

  lemma {:induction false} ServicesNest(
    services: seq<Service>, f: (Service, nat) -> seq<Item>, first: nat, names: seq<string>)
    requires forall s, i | s in services ::
               Nest(f(s, i), names) == Names(names) && Scopes(f(s, i), names) == [names + [s.name]]
    ensures Nest(Each(services, f, first), names) == Names(names)
    ensures Scopes(Each(services, f, first), names) == ServiceScopes(services, names)
  {
    hide Nest, Scopes;
    if services == [] {
      NothingNests(names);
    } else {
      assert services[0] in services && forall s | s in services[1..] :: s in services;
      ServicesNest(services[1..], f, first + 1, names);
      Extend(f(services[0], first), Each(services[1..], f, first + 1), names);
    }
  }

  lemma NothingNests(names: seq<string>)
    ensures Nest([], names) == Names(names) && Scopes([], names) == []
  {
  }

  lemma SourceServicesNest(prefix: string, services: seq<Service>, names: seq<string>)
    ensures Nest(Each(services, SourceServiceOf(prefix), 0), names) == Names(names)
    ensures Scopes(Each(services, SourceServiceOf(prefix), 0), names) == ServiceScopes(services, names)
  {
    hide Nest, Scopes, Each, SourceServiceItems, ServiceScopes;
    forall s: Service, i: nat
      ensures Nest(SourceServiceOf(prefix)(s, i), names) == Names(names)
      ensures Scopes(SourceServiceOf(prefix)(s, i), names) == [names + [s.name]]
    {
      SourceServiceNests(prefix, s, names);
    }
    ServicesNest(services, SourceServiceOf(prefix), 0, names);
  }

  lemma HeaderServicesNest(services: seq<Service>, names: seq<string>)
    ensures Nest(Each(services, HeaderServiceAt, 0), names) == Names(names)
    ensures Scopes(Each(services, HeaderServiceAt, 0), names) == ServiceScopes(services, names)
  {
    hide Nest, Scopes, Each, HeaderServiceItems, ServiceScopes;
    forall s: Service, i: nat
      ensures Nest(HeaderServiceAt(s, i), names) == Names(names)
      ensures Scopes(HeaderServiceAt(s, i), names) == [names + [s.name]]
    {
      HeaderServiceNests(s, names);
    }
    ServicesNest(services, HeaderServiceAt, 0, names);
  }

  // ----------------------------------------------------------------- packages

  lemma {:induction false} OpensNest(parts: seq<string>, first: nat, names: seq<string>)
    ensures Nest(Each(parts, OpenItem, first), names) == Names(names + parts)
    ensures Scopes(Each(parts, OpenItem, first), names) == []
  {
    hide Nest, Scopes;
    if parts == [] {
      NothingNests(names);
      assert names + parts == names;
    } else {
      NestOne(Open(parts[0]), names);
      OpensNest(parts[1..], first + 1, names + [parts[0]]);
      Extend([Open(parts[0])], Each(parts[1..], OpenItem, first + 1), names);
      assert names + [parts[0]] + parts[1..] == names + parts;
    }
  }

  lemma {:induction false} ClosesScopes(parts: seq<string>, first: nat, names: seq<string>)
    ensures Scopes(Each(parts, CloseItem, first), names) == []
    decreases |parts|
  {
    hide Scopes;
    if parts == [] {
      NothingNests(names);
    } else {
      CloseScopes(parts[0], Each(parts[1..], CloseItem, first + 1), names);
      ClosesScopes(parts[1..], first + 1, if names == [] then [] else names[..|names| - 1]);
    }
  }

  /** Closing braces fit exactly if the innermost namespaces are the parts backwards. */
  lemma {:induction false} ClosesNest(parts: seq<string>, first: nat, names: seq<string>)
    ensures Nest(Each(parts, CloseItem, first), names)
            == if |parts| <= |names| && names[|names| - |parts|..] == Reversed(parts)
               then Names(names[..|names| - |parts|]) else Broken
    decreases |parts|
  {
    hide Nest, Scopes, Reversed;
    ReversedUnfolds(parts);
    ReversedAt(parts);
    if parts == [] {
      NothingNests(names);
      assert names[..|names|] == names;
    } else {
      CloseThen(parts, first, names);
      if names != [] {
        var outer := names[..|names| - 1];
        ClosesNest(parts[1..], first + 1, outer);
        if |parts| <= |names| {
          LastFits(names, |names| - |parts|, Reversed(parts[1..]), parts[0]);
        }
      }
    }
  }

  /** One brace, then the others. */
  lemma CloseThen(parts: seq<string>, first: nat, names: seq<string>)
    requires parts != []
    ensures Nest(Each(parts, CloseItem, first), names)
            == if names == [] || names[|names| - 1] != parts[0] then Broken
               else Nest(Each(parts[1..], CloseItem, first + 1), names[..|names| - 1])
  {
    hide Nest;
    NestConcat([Close(parts[0])], Each(parts[1..], CloseItem, first + 1), names);
    NestOne(Close(parts[0]), names);
  }

  lemma {:induction false} ReversedAt(parts: seq<string>)
    ensures |Reversed(parts)| == |parts|
    ensures forall i | 0 <= i < |parts| :: Reversed(parts)[i] == parts[|parts| - 1 - i]
  {
    if parts != [] {
      ReversedAt(parts[1..]);
    }
  }

  lemma ReversedUnfolds(parts: seq<string>)
    ensures Reversed(parts) == if parts == [] then [] else Reversed(parts[1..]) + [parts[0]]
  {
  }

  lemma LastFits(names: seq<string>, k: nat, rest: seq<string>, last: string)
    requires k < |names|
    ensures var outer := names[..|names| - 1];
            && outer[..k] == names[..k]
            && (names[k..] == rest + [last] <==> outer[k..] == rest && names[|names| - 1] == last)
  {
    var outer := names[..|names| - 1];
    assert names[k..] == outer[k..] + [names[|names| - 1]];
    if names[k..] == rest + [last] {
      assert outer[k..] == names[k..][..|names| - 1 - k] == rest;
    }
  }

  lemma CloseScopes(part: string, rest: seq<Item>, names: seq<string>)
    ensures Scopes([Close(part)] + rest, names) == Scopes(rest, if names == [] then [] else names[..|names| - 1])
  {
    assert ([Close(part)] + rest)[1..] == rest;
  }

  lemma {:induction false} ReversedTwice(parts: seq<string>)
    ensures Reversed(Reversed(parts)) == parts
  {
    if parts != [] {
      ReversedTwice(parts[1..]);
      ReversedAppend(Reversed(parts[1..]), parts[0]);
    }
  }

  /** The same backwards. */
  predicate IsPalindrome(parts: seq<string>) {
    forall i | 0 <= i < |parts| :: parts[i] == parts[|parts| - 1 - i]
  }

  /** The parts of the package: its pieces between the dots; none if there is no package. */
  lemma PartsAre(file: File)
    ensures file.package == "" ==> Parts(file) == []
    ensures file.package != "" ==>
              && Parts(file) != [] && Join(Parts(file), ".") == file.package
              && forall part | part in Parts(file) :: '.' !in part
  {
    hide Split;
    JoinSplit(file.package, '.');
  }

  // -------------------------------------------------------------- whole files

  /** Every brace of the header closes the namespace its comment names, and none stays open. */
  lemma HeaderNests(file: File, ns: string)
    ensures Nest(HeaderItems(file, ns), []) == Names([])
    ensures Scopes(HeaderItems(file, ns), [])
            == ServiceScopes(file.services, Parts(file) + if ns == "" then [] else [ns])
  {
    hide Nest, Scopes, Each, Reversed, ServiceScopes, Parts, IncludeGuard;
    var parts, guard := Parts(file), IncludeGuard(file.name);
    var opens, closes := Each(parts, OpenItem, 0), Each(Reversed(parts), CloseItem, 0);
    NestOne(GuardBegin(guard), []);
    OpensNest(parts, 0, []);
    Extend([GuardBegin(guard)], opens, []);
    assert [] + parts == parts;
    HeaderServicesInside(file, ns, parts);
    Extend([GuardBegin(guard)] + opens, HeaderServicesItems(file, ns), []);
    ReversedTwice(parts);
    ReversedAt(parts);
    ClosesNest(Reversed(parts), 0, parts);
    ClosesScopes(Reversed(parts), 0, parts);
    assert parts[0..] == parts && parts[..0] == [];
    NestOne(GuardEnd(guard), []);
    Extend(closes, [GuardEnd(guard)], parts);
    Extend([GuardBegin(guard)] + opens + HeaderServicesItems(file, ns), closes + [GuardEnd(guard)], []);
  }

  lemma HeaderServicesInside(file: File, ns: string, names: seq<string>)
    ensures Nest(HeaderServicesItems(file, ns), names) == Names(names)
    ensures Scopes(HeaderServicesItems(file, ns), names)
            == ServiceScopes(file.services, names + if ns == "" then [] else [ns])
  {
    hide Nest, Scopes, Each, ServiceScopes;
    var services := Each(file.services, HeaderServiceAt, 0);
    if ns == "" {
      HeaderServicesNest(file.services, names);
      assert [] + services + [] == services && names + [] == names;
    } else {
      var inside := names + [ns];
      HeaderServicesNest(file.services, inside);
      NestOne(Open(ns), names);
      NestOne(Close(ns), inside);
      assert inside[..|inside| - 1] == names;
      Extend([Open(ns)], services, names);
      Extend([Open(ns)] + services, [Close(ns)], names);
    }
  }

  /** The open namespaces where the services of the source stand. */
  function SourceScope(file: File): seq<string> {
    Parts(file) + if file.HasDescriptorMethods() then [] else [""]
  }

  lemma DescriptorsNest(file: File, names: seq<string>)
    ensures Nest(DescriptorItems(file), names) == Names(names + if file.HasDescriptorMethods() then [] else [""])
    ensures Scopes(DescriptorItems(file), names) == []
  {
    hide Nest, Scopes, Each, AssignDescriptorsName;
    var a, b := Each(file.services, VariableItem, 0), Each(file.services, AssignmentItem, 0);
    forall x | x in a
      ensures IsFlat(x)
    {
      var j := FromElement(file.services, VariableItem, 0, x);
    }
    forall x | x in b
      ensures IsFlat(x)
    {
      var j := FromElement(file.services, AssignmentItem, 0, x);
    }
    var inside := names + [""];
    NestOne(Open(""), names);
    FlatItems(a, inside);
    Extend([Open("")], a, names);
    if file.HasDescriptorMethods() {
      var assign := AssignDescriptors(AssignDescriptorsName(file.name));
      assert inside[..|inside| - 1] == names && names + [] == names;
      NestOne(assign, inside);
      FlatItems(b, inside);
      var once := AssignDescriptorsOnce(AssignDescriptorsName(file.name));
      NestOne(once, inside);
      NestOne(Close(""), inside);
      Extend([once], [Close("")], inside);
      assert [once, Close("")] == [once] + [Close("")];
      Extend([assign], b, inside);
      Extend([assign] + b, [once, Close("")], inside);
      Extend([Open("")] + a, [assign] + b + [once, Close("")], names);
    } else {
      assert [Open("")] + a + [] == [Open("")] + a;
    }
  }

  /** All of the source but the braces at its end. */
  function SourceBody(file: File): seq<Item> {
    Each(Parts(file), OpenItem, 0) + DescriptorItems(file)
    + Each(file.services, SourceServiceOf(PackagePrefix(file.package)), 0)
  }

  lemma SourceBodyNests(file: File)
    ensures Nest(SourceBody(file), []) == Names(SourceScope(file))
    ensures Scopes(SourceBody(file), []) == ServiceScopes(file.services, SourceScope(file))
  {
    hide Nest, Scopes, Each, ServiceScopes, Parts, DescriptorItems, SourceServiceOf, PackagePrefix;
    var parts, f := Parts(file), SourceServiceOf(PackagePrefix(file.package));
    OpensNest(parts, 0, []);
    assert [] + parts == parts;
    DescriptorsNest(file, parts);
    Extend(Each(parts, OpenItem, 0), DescriptorItems(file), []);
    SourceServicesNest(PackagePrefix(file.package), file.services, SourceScope(file));
    Extend(Each(parts, OpenItem, 0) + DescriptorItems(file), Each(file.services, f, 0), []);
  }

  lemma {:induction false} ClosesDepth(parts: seq<string>, first: nat, depth: nat)
    requires |parts| <= depth
    ensures Depth(Each(parts, CloseItem, first), depth) == depth - |parts|
  {
    if parts != [] {
      ClosesDepth(parts[1..], first + 1, depth - 1);
      var rest := Each(parts[1..], CloseItem, first + 1);
      assert ([Close(parts[0])] + rest)[1..] == rest;
    }
  }

  /** No brace of the source is one too many, and all are closed exactly with descriptor methods. */
  lemma SourceDepth(file: File)
    ensures Depth(SourceItems(file), 0) == if file.lite then 1 else 0
  {
    hide Nest, Scopes, Each, Depth, SourceBody, Parts;
    SourceBodyNests(file);
    NestDepth(SourceBody(file), []);
    DepthConcat(SourceBody(file), Each(Parts(file), CloseItem, 0), 0);
    ClosesDepth(Parts(file), 0, |SourceScope(file)|);
    SourceSplits(file);
  }

  lemma SourceSplits(file: File)
    ensures SourceItems(file) == SourceBody(file) + Each(Parts(file), CloseItem, 0)
  {
    hide Each, Parts, DescriptorItems, SourceServiceOf;
  }

  /**
   The comments of the source name the namespaces they close exactly if, besides, the parts
   of the package read the same backwards: they are closed in the order they were opened.
   */
  lemma SourceNestsIff(file: File)
    ensures Nest(SourceItems(file), []) == Names([])
            <==> !file.lite && IsPalindrome(Parts(file))
  {
    hide Nest, Scopes, Each, SourceBody, Parts, Reversed;
    var parts, scope := Parts(file), SourceScope(file);
    ReversedAt(parts);
    SourceBodyNests(file);
    SourceSplits(file);
    NestConcat(SourceBody(file), Each(parts, CloseItem, 0), []);
    ClosesNest(parts, 0, scope);
    if file.HasDescriptorMethods() {
      assert scope == parts && scope[0..] == scope && scope[..0] == [];
    }
  }

  /**
   Header and source put the stubs of the services into the same namespaces exactly if
   there is nothing to put, or no services namespace is asked for and there are descriptor
   methods.
   */
  lemma ScopesAgree(file: File, ns: string)
    ensures Scopes(HeaderItems(file, ns), []) == Scopes(SourceItems(file), [])
            <==> file.services == [] || (ns == "" && !file.lite)
  {
    hide Nest, Scopes, Each, SourceBody, Parts, HeaderItems;
    var header := Parts(file) + if ns == "" then [] else [ns];
    var source := SourceScope(file);
    HeaderNests(file, ns);
    SourceBodyNests(file);
    SourceSplits(file);
    Extend(SourceBody(file), Each(Parts(file), CloseItem, 0), []);
    ClosesScopes(Parts(file), 0, source);
    if file.services != [] {
      SameOuter(header, source, file.services[0].name);
      assert ServiceScopes(file.services, header)[0] == header + [file.services[0].name];
      assert ServiceScopes(file.services, source)[0] == source + [file.services[0].name];
      assert |header| == |Parts(file)| + if ns == "" then 0 else 1;
      assert |source| == |Parts(file)| + if file.HasDescriptorMethods() then 0 else 1;
      if ns != "" && !file.HasDescriptorMethods() {
        assert header[|header| - 1] == ns && source[|source| - 1] == "";
      }
    }
  }

  lemma SameOuter(a: seq<string>, b: seq<string>, name: string)
    ensures a + [name] == b + [name] <==> a == b
  {
    if a + [name] == b + [name] {
      assert a == (a + [name])[..|a|] && b == (b + [name])[..|b|];
    }
  }
}
