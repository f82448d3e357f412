/** The printing functions of the code generator. */
module Generator {
  import opened Strings
  import opened ClassNames
  import opened Decimals
  import opened Names
  import opened Generated
  import opened Emission

  /** The printer: what has been printed so far. */
  class Printer {
    var output: seq<Item>

    constructor ()
      ensures output == []
    {
      output := [];
    }

    method Print(item: Item)
      modifies this
      ensures output == old(output) + [item]
    {
      output := output + [item];
    }

    /** One template may hold several items. */
    method PrintAll(items: seq<Item>)
      modifies this
      ensures output == old(output) + items
    {
      output := output + items;
    }
  }

  /** The variables of the templates, shared by all printing functions of a service. */
  class Vars {
    var values: map<string, string>

    constructor ()
      ensures values == map[]
    {
      values := map[];
    }

    method Set(name: string, value: string)
      modifies this
      ensures values == old(values)[name := value]
    {
      values := values[name := value];
    }
  }

  /** The variables after a printing function of a method. */
  function MethodVars(values: map<string, string>, m: Method): map<string, string> {
    values["Method" := m.name]["Request" := Scoped(m.input)]["Response" := Scoped(m.output)]
  }

  /** The variables every printing function of a method sets. */
  method SetMethod(m: Method, vars: Vars)
    requires m.Valid()
    modifies vars
    ensures vars.values == MethodVars(old(vars.values), m)
  {
    vars.Set("Method", m.name);
    var request := ClassName(m.input, true);
    vars.Set("Request", request);
    var response := ClassName(m.output, true);
    vars.Set("Response", response);
  }

  /** The function types that a method brings to class `Stub`, and its two functions. */
  method PrintHeaderClientMethodPublic(printer: Printer, m: Method, vars: Vars)
    requires m.Valid()
    modifies printer, vars
    ensures printer.output == old(printer.output) + ClientItems(m)
    ensures vars.values == MethodVars(old(vars.values), m)
  {
    SetMethod(m, vars);
    var v := vars.values;
    var name, request, response := v["Method"], v["Request"], v["Response"];
    if m.NoStreaming() {
      printer.PrintAll(
        [StubDeclared(name, Sync, "::grpc_cb::Status", [request, response]),
         StubAlias(name + "_RespCb", "::grpc_cb::MsgCbTmpl<" + response + ">"),
         StubDeclared(name, Async, "void", [request, name + "_RespCb", "::grpc_cb::ErrorCb"])]);
    } else if m.ClientOnlyStreaming() {
      printer.PrintAll(
        [StubAlias(name + "_SyncWriter", "::grpc_cb::ClientSyncWriter" + ("<" + request + ", " + response + ">")),
         StubDeclared(name, Sync, name + "_SyncWriter", []),
         StubAlias(name + "_AsyncWriter", "::grpc_cb::ClientAsyncWriter" + ("<" + request + ", " + response + ">")),
         StubDeclared(name, Async, name + "_AsyncWriter", [])]);
    } else if m.ServerOnlyStreaming() {
      printer.PrintAll(
        [StubAlias(name + "_SyncReader", "::grpc_cb::ClientSyncReader" + ("<" + request + ", " + response + ">")),
         StubDeclared(name, Sync, name + "_SyncReader", [request]),
         StubAlias(name + "_MsgCb", "::grpc_cb::MsgCbTmpl<" + response + ">"),
         StubDeclared(name, Async, "void", [request, name + "_MsgCb", "::grpc_cb::StatusCb"])]);
    } else {
      printer.PrintAll(
        [StubAlias(name + "_SyncReaderWriter",
                   "::grpc_cb::ClientSyncReaderWriter" + ("<" + request + ", " + response + ">")),
         StubDeclared(name, Sync, name + "_SyncReaderWriter", []),
         StubAlias(name + "_AsyncReaderWriter",
                   "::grpc_cb::ClientAsyncReaderWriter" + ("<" + request + ", " + response + ">")),
         StubDeclared(name, Async, name + "_AsyncReaderWriter", ["::grpc_cb::StatusCb"])]);
    }
  }

  /** The types that a method brings to class `Service`, and its two functions. */
  method PrintHeaderServiceMethod(printer: Printer, m: Method, vars: Vars)
    requires m.Valid()
    modifies printer, vars
    ensures printer.output == old(printer.output) + DeclarationItems(m)
    ensures vars.values == MethodVars(old(vars.values), m)
  {
    SetMethod(m, vars);
    var v := vars.values;
    var name, request, response := v["Method"], v["Request"], v["Response"];
    if m.NoStreaming() {
      printer.PrintAll(
        [Alias(name + "_Replier", "::grpc_cb::ServerReplier<" + response + ">"),
         Declared(name, "void", [request, name + "_Replier"]),
         Declared(name, "void", ["grpc_byte_buffer", name + "_Replier"])]);
    } else if m.ClientOnlyStreaming() {
      printer.PrintAll(
        [Alias(name + "_Replier", "::grpc_cb::ServerReplier<" + response + ">"),
         Alias(name + "_Reader",
               "::grpc_cb::ServerReaderFor" + "ClientSideStreaming" + "<" + request + ", " + response + ">"),
         Alias(name + "_ReaderSptr", "std::shared_ptr<" + name + "_Reader>"),
         Declared(name, name + "_ReaderSptr", [name + "_Replier"]),
         Declared(name, "void", ["::grpc_cb::CallSptr"])]);
    } else if m.ServerOnlyStreaming() {
      printer.PrintAll(
        [Alias(name + "_Writer", "::grpc_cb::ServerWriter<" + response + ">"),
         Declared(name, "void", [request, name + "_Writer"]),
         Declared(name, "void", ["grpc_byte_buffer", name + "_Writer"])]);
    } else {
      printer.PrintAll(
        [Alias(name + "_Writer", "::grpc_cb::ServerWriter<" + response + ">"),
         Alias(name + "_Reader",
               "::grpc_cb::ServerReaderFor" + "BidiStreaming" + "<" + request + ", " + response + ">"),
         Alias(name + "_ReaderSptr", "std::shared_ptr<" + name + "_Reader>"),
         Declared(name, name + "_ReaderSptr", [name + "_Writer"]),
         Declared(name, "void", ["::grpc_cb::CallSptr"])]);
    }
  }

  /** The functions of class `Stub`. */
  method PrintHeaderClientMethods(printer: Printer, s: Service, vars: Vars)
    requires s.Valid() && "Service" in vars.values
    modifies printer, vars
    ensures printer.output == old(printer.output) + Each(s.methods, ClientItemsAt, 0)
    ensures "Service" in vars.values && vars.values["Service"] == old(vars.values["Service"])
  {
    hide Each, ClientItems, Scoped;
    EachEnds(s.methods, ClientItemsAt, printer.output);
    for i := 0 to |s.methods|
      invariant printer.output + Each(s.methods[i..], ClientItemsAt, i)
                == old(printer.output) + Each(s.methods, ClientItemsAt, 0)
      invariant "Service" in vars.values && vars.values["Service"] == old(vars.values["Service"])
    {
      EachStep(s.methods, ClientItemsAt, i, printer.output);
      PrintHeaderClientMethodPublic(printer, s.methods[i], vars);
    }
    EachEnds(s.methods, ClientItemsAt, printer.output);
  }

  /** The functions of class `Service`. */
  method PrintHeaderServiceMethods(printer: Printer, s: Service, vars: Vars)
    requires s.Valid() && "Service" in vars.values
    modifies printer, vars
    ensures printer.output == old(printer.output) + Each(s.methods, DeclarationsAt, 0)
    ensures "Service" in vars.values && vars.values["Service"] == old(vars.values["Service"])
  {
    hide Each, DeclarationItems, Scoped;
    EachEnds(s.methods, DeclarationsAt, printer.output);
    for i := 0 to |s.methods|
      invariant printer.output + Each(s.methods[i..], DeclarationsAt, i)
                == old(printer.output) + Each(s.methods, DeclarationsAt, 0)
      invariant "Service" in vars.values && vars.values["Service"] == old(vars.values["Service"])
    {
      EachStep(s.methods, DeclarationsAt, i, printer.output);
      PrintHeaderServiceMethod(printer, s.methods[i], vars);
    }
    EachEnds(s.methods, DeclarationsAt, printer.output);
  }

  method PrintHeaderService(printer: Printer, s: Service, vars: Vars)
    requires s.Valid()
    modifies printer, vars
    ensures printer.output == old(printer.output) + HeaderServiceItems(s)
  {
    hide Each;
    vars.Set("Service", s.name);
    printer.PrintAll([Open(vars.values["Service"]), GetterDeclared, StubClass, StubConstructorDeclared]);
    PrintHeaderClientMethods(printer, s, vars);
    printer.PrintAll([MemberDeclared(CONSTRUCTOR), MemberDeclared(DESTRUCTOR),
                      MemberDeclared(GET_METHOD_NAME), MemberDeclared(CALL_METHOD)]);
    PrintHeaderServiceMethods(printer, s, vars);
    printer.PrintAll([GetDescriptor, Close(vars.values["Service"])]);
  }

  /** Uses the variable `Idx` of the caller where the method streams. */
  method PrintSourceClientMethod(printer: Printer, m: Method, vars: Vars)
    requires m.Valid() && "Idx" in vars.values
    modifies printer, vars
    ensures printer.output == old(printer.output) + StubItems(m, old(vars.values["Idx"]))
    ensures vars.values == MethodVars(old(vars.values), m)
  {
    SetMethod(m, vars);
    var v := vars.values;
    var name, request, idx := v["Method"], v["Request"], v["Idx"];
    if m.NoStreaming() {
      printer.PrintAll(
        [StubCall(name, Sync, "::grpc_cb::Status", [request, v["Response"]], "0"),
         StubCall(name, Async, "void", [request, name + "_RespCb", "::grpc_cb::ErrorCb"], "0")]);
    } else if m.ClientOnlyStreaming() {
      printer.PrintAll(
        [StubCall(name, Sync, name + "_SyncWriter", [], idx),
         StubCall(name, Async, name + "_AsyncWriter", [], idx)]);
    } else if m.ServerOnlyStreaming() {
      printer.PrintAll(
        [StubCall(name, Sync, name + "_SyncReader", [request], idx),
         StubCall(name, Async, "void", [request, name + "_MsgCb", "::grpc_cb::StatusCb"], idx)]);
    } else {
      printer.PrintAll(
        [StubCall(name, Sync, name + "_SyncReaderWriter", [], idx),
         StubCall(name, Async, name + "_AsyncReaderWriter", ["::grpc_cb::StatusCb"], idx)]);
    }
  }

  method PrintSourceServerMethod(printer: Printer, m: Method, vars: Vars)
    requires m.Valid()
    modifies printer, vars
    ensures printer.output == old(printer.output) + DefinitionItems(m)
    ensures vars.values == MethodVars(old(vars.values), m)
  {
    SetMethod(m, vars);
    var v := vars.values;
    var name := v["Method"];
    if m.NoStreaming() {
      printer.PrintAll(
        [Defined(name, "void", ["grpc_byte_buffer", name + "_Replier"]),
         Defined(name, "void", [v["Request"], name + "_Replier"])]);
    } else if m.ClientOnlyStreaming() {
      printer.PrintAll(
        [Defined(name, "void", ["::grpc_cb::CallSptr"]), Defined(name, name + "_ReaderSptr", [name + "_Replier"])]);
    } else if m.ServerOnlyStreaming() {
      printer.PrintAll(
        [Defined(name, "void", ["grpc_byte_buffer", "ListFeatures_Writer"]),
         Defined(name, "void", [v["Request"], "ListFeatures_Writer"])]);
    } else {
      printer.PrintAll(
        [Defined(name, "void", ["::grpc_cb::CallSptr"]), Defined(name, name + "_ReaderSptr", [name + "_Writer"])]);
    }
  }

  /** One case, for the index in `Idx`. */
  method PrintCase(printer: Printer, m: Method, vars: Vars, ghost prefix: string, ghost service: string)
    requires m.Valid() && "Idx" in vars.values && KeepsNames(vars.values, prefix, service)
    modifies printer, vars
    ensures printer.output == old(printer.output) + CaseFor(m, old(vars.values["Idx"]))
    ensures KeepsNames(vars.values, prefix, service)
  {
    hide Scoped;
    vars.Set("Method", m.name);
    var response := ClassName(m.output, true);
    vars.Set("Response", response);
    var v := vars.values;
    if m.NoStreaming() {
      printer.Print(Case(v["Idx"], v["Method"], ["grpc_byte_buffer", v["Method"] + "_Replier"]));
    } else if m.ServerOnlyStreaming() {
      printer.Print(Case(v["Idx"], v["Method"], ["grpc_byte_buffer", v["Method"] + "_Writer"]));
    } else {
      printer.Print(Case(v["Idx"], v["Method"], ["::grpc_cb::CallSptr"]));
    }
  }

  method PrintCallMethod(printer: Printer, s: Service, vars: Vars, ghost prefix: string)
    requires s.Valid() && KeepsNames(vars.values, prefix, s.name)
    modifies printer, vars
    ensures printer.output == old(printer.output) + Each(s.methods, CaseItem, 0)
    ensures KeepsNames(vars.values, prefix, s.name)
  {
    hide Each, CaseFor, Method.Valid;
    EachEnds(s.methods, CaseItem, printer.output);
    for i := 0 to |s.methods|
      invariant printer.output + Each(s.methods[i..], CaseItem, i) == old(printer.output) + Each(s.methods, CaseItem, 0)
      invariant KeepsNames(vars.values, prefix, s.name)
    {
      assert s.methods[i] in s.methods;
      EachStep(s.methods, CaseItem, i, printer.output);
      vars.Set("Idx", DecimalNat(i));
      PrintCase(printer, s.methods[i], vars, prefix, s.name);
    }
    EachEnds(s.methods, CaseItem, printer.output);
  }

  /** The table of paths. */
  method PrintMethodNames(printer: Printer, s: Service, vars: Vars, ghost prefix: string)
    requires KeepsNames(vars.values, prefix, s.name)
    modifies printer, vars
    ensures printer.output == old(printer.output) + Each(s.methods, NameItem(prefix, s.name), 0)
    ensures KeepsNames(vars.values, prefix, s.name)
  {
    hide Each;
    ghost var nameItem := NameItem(prefix, s.name);
    EachEnds(s.methods, nameItem, printer.output);
    for i := 0 to |s.methods|
      invariant printer.output + Each(s.methods[i..], nameItem, i) == old(printer.output) + Each(s.methods, nameItem, 0)
      invariant KeepsNames(vars.values, prefix, s.name)
    {
      EachStep(s.methods, nameItem, i, printer.output);
      vars.Set("Method", s.methods[i].name);
      var v := vars.values;
      printer.Print(MethodName("/" + v["Package"] + v["Service"] + "/" + v["Method"]));
    }
    EachEnds(s.methods, nameItem, printer.output);
  }

  /** The functions of the stub; each loop turn sets `Idx` for the function it calls. */
  method PrintSourceClientMethods(printer: Printer, s: Service, vars: Vars, ghost prefix: string)
    requires s.Valid() && KeepsNames(vars.values, prefix, s.name)
    modifies printer, vars
    ensures printer.output == old(printer.output) + Each(s.methods, StubItemsAt, 0)
    ensures KeepsNames(vars.values, prefix, s.name)
  {
    hide Each, StubItems, Scoped;
    EachEnds(s.methods, StubItemsAt, printer.output);
    for i := 0 to |s.methods|
      invariant printer.output + Each(s.methods[i..], StubItemsAt, i)
                == old(printer.output) + Each(s.methods, StubItemsAt, 0)
      invariant KeepsNames(vars.values, prefix, s.name)
    {
      EachStep(s.methods, StubItemsAt, i, printer.output);
      vars.Set("Idx", DecimalNat(i));
      PrintSourceClientMethod(printer, s.methods[i], vars);
    }
    EachEnds(s.methods, StubItemsAt, printer.output);
  }

  method PrintSourceServerMethods(printer: Printer, s: Service, vars: Vars, ghost prefix: string)
    requires s.Valid() && KeepsNames(vars.values, prefix, s.name)
    modifies printer, vars
    ensures printer.output == old(printer.output) + Each(s.methods, DefinitionsAt, 0)
    ensures KeepsNames(vars.values, prefix, s.name)
  {
    hide Each, DefinitionItems, Scoped;
    EachEnds(s.methods, DefinitionsAt, printer.output);
    for i := 0 to |s.methods|
      invariant printer.output + Each(s.methods[i..], DefinitionsAt, i)
                == old(printer.output) + Each(s.methods, DefinitionsAt, 0)
      invariant KeepsNames(vars.values, prefix, s.name)
    {
      EachStep(s.methods, DefinitionsAt, i, printer.output);
      vars.Set("Idx", DecimalNat(i));
      PrintSourceServerMethod(printer, s.methods[i], vars);
    }
    EachEnds(s.methods, DefinitionsAt, printer.output);
  }

  method PrintSourceService(printer: Printer, s: Service, vars: Vars)
    requires s.Valid() && "Package" in vars.values
    modifies printer, vars
    ensures printer.output == old(printer.output) + SourceServiceItems(old(vars.values["Package"]), s)
    ensures "Package" in vars.values && vars.values["Package"] == old(vars.values["Package"])
  {
    hide Each, NameItem, CONSTRUCTOR, DESTRUCTOR, GET_METHOD_NAME, CALL_METHOD;
    ghost var prefix := vars.values["Package"];
    vars.Set("Service", s.name);
    printer.Print(Open(vars.values["Service"]));
    PrintMethodNames(printer, s, vars, prefix);
    printer.PrintAll([Getter(vars.values["Service"]), StubConstructor]);
    PrintSourceClientMethods(printer, s, vars, prefix);
    vars.Set("MethodCount", DecimalNat(|s.methods|));
    printer.PrintAll([MemberDefined(CONSTRUCTOR), MemberDefined(DESTRUCTOR),
                      MemberDefined(GET_METHOD_NAME), MemberDefined(CALL_METHOD)]);
    PrintCallMethod(printer, s, vars, prefix);
    PrintSourceServerMethods(printer, s, vars, prefix);
    printer.Print(Close(vars.values["Service"]));
  }

  predicate KeepsNames(values: map<string, string>, prefix: string, service: string) {
    && "Package" in values && values["Package"] == prefix
    && "Service" in values && values["Service"] == service
  }

  // ----------------------------------------------------------- parts of a file

  method PackageParts(file: File) returns (parts: seq<string>)
    ensures parts == Parts(file)
  {
    parts := [];
    if file.package != "" {
      parts := Tokenize(file.package, ".");
    }
  }

  method GetHeaderPrologue(file: File) returns (output: seq<Item>)
    ensures output == [GuardBegin(IncludeGuard(file.name))]
  {
    var identifier := FilenameIdentifier(file.name);
    output := [GuardBegin("GRPC_CB_" + identifier + "__INCLUDED")];
  }

  /** Both files open the namespaces of the package in order. */
  method OpenPackage(file: File) returns (output: seq<Item>)
    ensures output == Each(Parts(file), OpenItem, 0)
  {
    hide Each, Parts;
    var parts := PackageParts(file);
    output := [];
    EachEnds(parts, OpenItem, []);
    for i := 0 to |parts|
      invariant output + Each(parts[i..], OpenItem, i) == Each(parts, OpenItem, 0)
    {
      EachStep(parts, OpenItem, i, output);
      output := output + [Open(parts[i])];
    }
    EachEnds(parts, OpenItem, output);
  }

  method GetHeaderServices(file: File, ns: string) returns (output: seq<Item>)
    requires file.Valid()
    ensures output == HeaderServicesItems(file, ns)
  {
    hide Each, HeaderServiceItems;
    var printer := new Printer();
    var vars := new Vars();
    if ns != "" {
      vars.Set("services_namespace", ns);
      printer.Print(Open(ns));
    }
    ghost var start := printer.output;
    EachEnds(file.services, HeaderServiceAt, start);
    for i := 0 to |file.services|
      invariant printer.output + Each(file.services[i..], HeaderServiceAt, i)
                == start + Each(file.services, HeaderServiceAt, 0)
    {
      EachStep(file.services, HeaderServiceAt, i, printer.output);
      assert file.services[i] in file.services;
      PrintHeaderService(printer, file.services[i], vars);
    }
    EachEnds(file.services, HeaderServiceAt, printer.output);
    if ns != "" {
      printer.Print(Close(ns));
    }
    output := printer.output;
  }

  /** The parts in reverse, as `rbegin` to `rend`. */
  method GetHeaderEpilogue(file: File) returns (output: seq<Item>)
    ensures output == Each(Reversed(Parts(file)), CloseItem, 0) + [GuardEnd(IncludeGuard(file.name))]
  {
    hide Each, Parts, Reversed;
    var parts := PackageParts(file);
    output := [];
    var i := |parts|;
    AllReversed(parts);
    while i > 0
      invariant 0 <= i <= |parts|
      invariant output + Each(Reversed(parts[..i]), CloseItem, 0) == Each(Reversed(parts), CloseItem, 0)
    {
      ReversedStep(parts, i, output);
      i := i - 1;
      output := output + [Close(parts[i])];
    }
    assert output + [] == output;
    var identifier := FilenameIdentifier(file.name);
    output := output + [GuardEnd("GRPC_CB_" + identifier + "__INCLUDED")];
  }

  lemma AllReversed(parts: seq<string>)
    ensures parts[..|parts|] == parts && Each(Reversed(parts[..0]), CloseItem, 0) == []
  {
  }

  lemma ReversedStep(parts: seq<string>, i: nat, output: seq<Item>)
    requires 0 < i <= |parts|
    ensures output + Each(Reversed(parts[..i]), CloseItem, 0)
            == output + [Close(parts[i - 1])] + Each(Reversed(parts[..i - 1]), CloseItem, 0)
  {
    hide Reversed;
    var rest := parts[..i - 1];
    assert parts[..i] == rest + [parts[i - 1]];
    ReversedAppend(rest, parts[i - 1]);
    assert ([parts[i - 1]] + Reversed(rest))[1..] == Reversed(rest);
    CloseFrom(Reversed(rest), 0, 1);
  }

  /** The anonymous namespace, opened always and closed in one branch. */
  method GetSourceDescriptors(file: File) returns (output: seq<Item>)
    ensures output == DescriptorItems(file)
  {
    hide Each;
    output := [Open("")];
    EachEnds(file.services, VariableItem, output);
    for i := 0 to |file.services|
      invariant output + Each(file.services[i..], VariableItem, i) == [Open("")] + Each(file.services, VariableItem, 0)
    {
      EachStep(file.services, VariableItem, i, output);
      output := output + [DescriptorVariable(file.services[i].name)];
    }
    EachEnds(file.services, VariableItem, output);
    if file.HasDescriptorMethods() {
      var identifier := FilenameIdentifier(file.name);
      output := output + [AssignDescriptors("AssignDesc_" + identifier)];
      var assignments := PrintAssignments(file.services);
      output := output + assignments;
      output := output + [AssignDescriptorsOnce("AssignDesc_" + identifier), Close("")];
    }
  }

  method PrintAssignments(services: seq<Service>) returns (output: seq<Item>)
    ensures output == Each(services, AssignmentItem, 0)
  {
    hide Each;
    output := [];
    EachEnds(services, AssignmentItem, []);
    for i := 0 to |services|
      invariant output + Each(services[i..], AssignmentItem, i) == Each(services, AssignmentItem, 0)
    {
      EachStep(services, AssignmentItem, i, output);
      output := output + [DescriptorAssignment(services[i].name, DecimalNat(i))];
    }
    EachEnds(services, AssignmentItem, output);
  }

  method GetSourceServices(file: File) returns (output: seq<Item>)
    requires file.Valid()
    ensures output == Each(file.services, SourceServiceOf(PackagePrefix(file.package)), 0)
  {
    hide Each, SourceServiceItems;
    var printer := new Printer();
    var vars := new Vars();
    vars.Set("Package", file.package);
    if file.package != "" {
      vars.Set("Package", vars.values["Package"] + ".");
    }
    ghost var prefix := PackagePrefix(file.package);
    ghost var f := SourceServiceOf(prefix);
    EachEnds(file.services, f, []);
    for i := 0 to |file.services|
      invariant printer.output + Each(file.services[i..], f, i) == Each(file.services, f, 0)
      invariant "Package" in vars.values && vars.values["Package"] == prefix
    {
      EachStep(file.services, f, i, printer.output);
      assert file.services[i] in file.services;
      PrintSourceService(printer, file.services[i], vars);
    }
    EachEnds(file.services, f, printer.output);
    output := printer.output;
  }

  /** The parts in order, although they were opened in order too. */
  method GetSourceEpilogue(file: File) returns (output: seq<Item>)
    ensures output == Each(Parts(file), CloseItem, 0)
  {
    hide Each, Parts;
    var parts := PackageParts(file);
    output := [];
    EachEnds(parts, CloseItem, []);
    for i := 0 to |parts|
      invariant output + Each(parts[i..], CloseItem, i) == Each(parts, CloseItem, 0)
    {
      EachStep(parts, CloseItem, i, output);
      output := output + [Close(parts[i])];
    }
    EachEnds(parts, CloseItem, output);
  }
}
