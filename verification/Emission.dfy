/** What the generator emits for a service or a file, as functions of the descriptors. */
module Emission {
  import opened Strings
  import opened ClassNames
  import opened Decimals
  import opened Names
  import opened Generated

  // -------------------------------------------------------------------- loops

  /** The output of a loop: what `f` gives for every element and its index. */
  function Each<T>(ts: seq<T>, f: (T, nat) -> seq<Item>, first: nat): seq<Item> {
    if ts == [] then [] else f(ts[0], first) + Each(ts[1..], f, first + 1)
  }

  lemma EachStep<T>(ts: seq<T>, f: (T, nat) -> seq<Item>, i: nat, out: seq<Item>)
    requires i < |ts|
    ensures out + Each(ts[i..], f, i) == out + f(ts[i], i) + Each(ts[i + 1..], f, i + 1)
  {
    assert ts[i..][1..] == ts[i + 1..];
  }

  lemma EachEnds<T>(ts: seq<T>, f: (T, nat) -> seq<Item>, out: seq<Item>)
    ensures ts[0..] == ts && out + Each(ts[|ts|..], f, |ts|) == out
  {
  }

  // ------------------------------------------------------ one service, source

  /** What stands before a service's name in its paths. */
  function PackagePrefix(package: string): string {
    if package == "" then "" else package + "."
  }

  function NameItem(prefix: string, service: string): (Method, nat) -> seq<Item> {
    (m: Method, _) => [MethodName("/" + prefix + service + "/" + m.name)]
  }

  /** The literal 0 stands in the text for methods that do not stream. */
  function StubItems(m: Method, index: string): seq<Item> {
    if m.NoStreaming() then
      [StubCall(m.name, Sync, "::grpc_cb::Status", [Scoped(m.input), Scoped(m.output)], "0"),
       StubCall(m.name, Async, "void", [Scoped(m.input), m.name + "_RespCb", "::grpc_cb::ErrorCb"], "0")]
    else if m.ClientOnlyStreaming() then
      [StubCall(m.name, Sync, m.name + "_SyncWriter", [], index),
       StubCall(m.name, Async, m.name + "_AsyncWriter", [], index)]
    else if m.ServerOnlyStreaming() then
      [StubCall(m.name, Sync, m.name + "_SyncReader", [Scoped(m.input)], index),
       StubCall(m.name, Async, "void", [Scoped(m.input), m.name + "_MsgCb", "::grpc_cb::StatusCb"], index)]
    else
      [StubCall(m.name, Sync, m.name + "_SyncReaderWriter", [], index),
       StubCall(m.name, Async, m.name + "_AsyncReaderWriter", ["::grpc_cb::StatusCb"], index)]
  }

  function StubItemsAt(m: Method, i: nat): seq<Item> {
    StubItems(m, DecimalNat(i))
  }

  function CaseItem(m: Method, i: nat): seq<Item> {
    CaseFor(m, DecimalNat(i))
  }

  function CaseFor(m: Method, index: string): seq<Item> {
    if m.NoStreaming() then [Case(index, m.name, ["grpc_byte_buffer", m.name + "_Replier"])]
    else if m.ServerOnlyStreaming() then [Case(index, m.name, ["grpc_byte_buffer", m.name + "_Writer"])]
    else [Case(index, m.name, ["::grpc_cb::CallSptr"])]
  }

  /** Class `Service`: both functions of a method, the one for the transport first. */
  function DefinitionsAt(m: Method, i: nat): seq<Item> {
    DefinitionItems(m)
  }

  function DefinitionItems(m: Method): seq<Item> {
    if m.NoStreaming() then
      [Defined(m.name, "void", ["grpc_byte_buffer", m.name + "_Replier"]),
       Defined(m.name, "void", [Scoped(m.input), m.name + "_Replier"])]
    else if m.ClientOnlyStreaming() then
      [Defined(m.name, "void", ["::grpc_cb::CallSptr"]),
       Defined(m.name, m.name + "_ReaderSptr", [m.name + "_Replier"])]
    else if m.ServerOnlyStreaming() then
      [Defined(m.name, "void", ["grpc_byte_buffer", "ListFeatures_Writer"]),
       Defined(m.name, "void", [Scoped(m.input), "ListFeatures_Writer"])]
    else
      [Defined(m.name, "void", ["::grpc_cb::CallSptr"]),
       Defined(m.name, m.name + "_ReaderSptr", [m.name + "_Writer"])]
  }

  /** The members of every class `Service` that the source defines. */
  const CONSTRUCTOR := "Service"
  const DESTRUCTOR := "~Service"
  const GET_METHOD_NAME := "GetMethodName"
  const CALL_METHOD := "CallMethod"

  function SourceMembers(): seq<Item> {
    [MemberDefined(CONSTRUCTOR), MemberDefined(DESTRUCTOR), MemberDefined(GET_METHOD_NAME), MemberDefined(CALL_METHOD)]
  }

  function SourceServiceItems(prefix: string, s: Service): seq<Item> {
    [Open(s.name)] + Each(s.methods, NameItem(prefix, s.name), 0)
    + [Getter(s.name), StubConstructor] + Each(s.methods, StubItemsAt, 0)
    + SourceMembers()
    + Each(s.methods, CaseItem, 0) + Each(s.methods, DefinitionsAt, 0)
    + [Close(s.name)]
  }

  // ------------------------------------------------------ one service, header

  /** Class `Stub`: what a method brings. */
  function ClientItems(m: Method): seq<Item> {
    var types := "<" + Scoped(m.input) + ", " + Scoped(m.output) + ">";
    if m.NoStreaming() then
      [StubDeclared(m.name, Sync, "::grpc_cb::Status", [Scoped(m.input), Scoped(m.output)]),
       StubAlias(m.name + "_RespCb", "::grpc_cb::MsgCbTmpl<" + Scoped(m.output) + ">"),
       StubDeclared(m.name, Async, "void", [Scoped(m.input), m.name + "_RespCb", "::grpc_cb::ErrorCb"])]
    else if m.ClientOnlyStreaming() then
      [StubAlias(m.name + "_SyncWriter", "::grpc_cb::ClientSyncWriter" + types),
       StubDeclared(m.name, Sync, m.name + "_SyncWriter", []),
       StubAlias(m.name + "_AsyncWriter", "::grpc_cb::ClientAsyncWriter" + types),
       StubDeclared(m.name, Async, m.name + "_AsyncWriter", [])]
    else if m.ServerOnlyStreaming() then
      [StubAlias(m.name + "_SyncReader", "::grpc_cb::ClientSyncReader" + types),
       StubDeclared(m.name, Sync, m.name + "_SyncReader", [Scoped(m.input)]),
       StubAlias(m.name + "_MsgCb", "::grpc_cb::MsgCbTmpl<" + Scoped(m.output) + ">"),
       StubDeclared(m.name, Async, "void", [Scoped(m.input), m.name + "_MsgCb", "::grpc_cb::StatusCb"])]
    else
      [StubAlias(m.name + "_SyncReaderWriter", "::grpc_cb::ClientSyncReaderWriter" + types),
       StubDeclared(m.name, Sync, m.name + "_SyncReaderWriter", []),
       StubAlias(m.name + "_AsyncReaderWriter", "::grpc_cb::ClientAsyncReaderWriter" + types),
       StubDeclared(m.name, Async, m.name + "_AsyncReaderWriter", ["::grpc_cb::StatusCb"])]
  }

  function ClientItemsAt(m: Method, i: nat): seq<Item> {
    ClientItems(m)
  }

  function ReplierItem(m: Method): Item {
    Alias(m.name + "_Replier", "::grpc_cb::ServerReplier<" + Scoped(m.output) + ">")
  }

  function WriterType(m: Method): string {
    "::grpc_cb::ServerWriter<" + Scoped(m.output) + ">"
  }

  function WriterItem(m: Method): Item {
    Alias(m.name + "_Writer", WriterType(m))
  }

  function ReaderItem(m: Method): Item {
    var side := if m.serverStreaming then "BidiStreaming" else "ClientSideStreaming";
    Alias(m.name + "_Reader",
          "::grpc_cb::ServerReaderFor" + side + "<" + Scoped(m.input) + ", " + Scoped(m.output) + ">")
  }

  function ReaderSptrItem(m: Method): Item {
    Alias(m.name + "_ReaderSptr", "std::shared_ptr<" + m.name + "_Reader>")
  }

  /** Class `Service`: what a method brings. */
  function DeclarationsAt(m: Method, i: nat): seq<Item> {
    DeclarationItems(m)
  }

  function DeclarationItems(m: Method): seq<Item> {
    if m.NoStreaming() then
      [ReplierItem(m),
       Declared(m.name, "void", [Scoped(m.input), m.name + "_Replier"]),
       Declared(m.name, "void", ["grpc_byte_buffer", m.name + "_Replier"])]
    else if m.ClientOnlyStreaming() then
      [ReplierItem(m), ReaderItem(m), ReaderSptrItem(m),
       Declared(m.name, m.name + "_ReaderSptr", [m.name + "_Replier"]),
       Declared(m.name, "void", ["::grpc_cb::CallSptr"])]
    else if m.ServerOnlyStreaming() then
      [WriterItem(m),
       Declared(m.name, "void", [Scoped(m.input), m.name + "_Writer"]),
       Declared(m.name, "void", ["grpc_byte_buffer", m.name + "_Writer"])]
    else
      [WriterItem(m), ReaderItem(m), ReaderSptrItem(m),
       Declared(m.name, m.name + "_ReaderSptr", [m.name + "_Writer"]),
       Declared(m.name, "void", ["::grpc_cb::CallSptr"])]
  }

  function HeaderServiceAt(s: Service, i: nat): seq<Item> {
    HeaderServiceItems(s)
  }

  function HeaderMembers(): seq<Item> {
    [MemberDeclared(CONSTRUCTOR), MemberDeclared(DESTRUCTOR),
     MemberDeclared(GET_METHOD_NAME), MemberDeclared(CALL_METHOD)]
  }

  function HeaderServiceItems(s: Service): seq<Item> {
    [Open(s.name), GetterDeclared, StubClass, StubConstructorDeclared] + Each(s.methods, ClientItemsAt, 0)
    + HeaderMembers()
    + Each(s.methods, DeclarationsAt, 0) + [GetDescriptor, Close(s.name)]
  }

  // -------------------------------------------------------------- whole files

  function SourceServiceOf(prefix: string): (Service, nat) -> seq<Item> {
    (s: Service, _) => SourceServiceItems(prefix, s)
  }

  function Parts(file: File): seq<string> {
    if file.package == "" then [] else Split(file.package, ".")
  }

  function OpenItem(part: string, i: nat): seq<Item> {
    [Open(part)]
  }

  function CloseItem(part: string, i: nat): seq<Item> {
    [Close(part)]
  }

  function Reversed(parts: seq<string>): seq<string> {
    if parts == [] then [] else Reversed(parts[1..]) + [parts[0]]
  }

  function HeaderItems(file: File, ns: string): seq<Item> {
    [GuardBegin(IncludeGuard(file.name))] + Each(Parts(file), OpenItem, 0)
    + HeaderServicesItems(file, ns)
    + (Each(Reversed(Parts(file)), CloseItem, 0) + [GuardEnd(IncludeGuard(file.name))])
  }

  function HeaderServicesItems(file: File, ns: string): seq<Item> {
    (if ns == "" then [] else [Open(ns)]) + Each(file.services, HeaderServiceAt, 0)
    + (if ns == "" then [] else [Close(ns)])
  }

  function VariableItem(s: Service, i: nat): seq<Item> {
    [DescriptorVariable(s.name)]
  }

  function AssignmentItem(s: Service, i: nat): seq<Item> {
    [DescriptorAssignment(s.name, DecimalNat(i))]
  }

  /** The anonymous namespace is closed only together with the descriptor functions. */
  function DescriptorItems(file: File): seq<Item> {
    [Open("")] + Each(file.services, VariableItem, 0)
    + if file.HasDescriptorMethods() then
        [AssignDescriptors(AssignDescriptorsName(file.name))] + Each(file.services, AssignmentItem, 0)
        + [AssignDescriptorsOnce(AssignDescriptorsName(file.name)), Close("")]
      else []
  }

  function SourceItems(file: File): seq<Item> {
    Each(Parts(file), OpenItem, 0) + DescriptorItems(file)
    + Each(file.services, SourceServiceOf(PackagePrefix(file.package)), 0) + Each(Parts(file), CloseItem, 0)
  }

  lemma {:induction false} ReversedAppend(parts: seq<string>, part: string)
    ensures Reversed(parts + [part]) == [part] + Reversed(parts)
  {
    if parts == [] {
      assert parts + [part] == [part];
      assert Reversed([part]) == Reversed([]) + [part];
    } else {
      assert (parts + [part])[1..] == parts[1..] + [part];
      ReversedAppend(parts[1..], part);
    }
  }

  /** Closing does not depend on the index. */
  lemma {:induction false} CloseFrom(parts: seq<string>, i: nat, j: nat)
    ensures Each(parts, CloseItem, i) == Each(parts, CloseItem, j)
  {
    if parts != [] {
      CloseFrom(parts[1..], i + 1, j + 1);
    }
  }
}
