/**
 The generator on route_guide.proto: the items are those of the two files that stand in
 the repository, route_guide.grpc_cb.pb.h and route_guide.grpc_cb.pb.cc, written out here
 as they stand there.
 */
module RouteGuideFiles {
  import opened Strings
  import opened ClassNames
  import opened Decimals
  import opened Names
  import opened Generated
  import opened Emission

  // ------------------------------------------------------------ the descriptors

  const POINT := TopLevel("routeguide", "Point")
  const RECTANGLE := TopLevel("routeguide", "Rectangle")
  const FEATURE := TopLevel("routeguide", "Feature")
  const ROUTE_NOTE := TopLevel("routeguide", "RouteNote")
  const ROUTE_SUMMARY := TopLevel("routeguide", "RouteSummary")

  const GET_FEATURE := Method("GetFeature", POINT, FEATURE, false, false)
  const LIST_FEATURES := Method("ListFeatures", RECTANGLE, FEATURE, false, true)
  const RECORD_ROUTE := Method("RecordRoute", POINT, ROUTE_SUMMARY, true, false)
  const ROUTE_CHAT := Method("RouteChat", ROUTE_NOTE, ROUTE_NOTE, true, true)

  const ROUTE_GUIDE := Service("RouteGuide", [GET_FEATURE, LIST_FEATURES, RECORD_ROUTE, ROUTE_CHAT])
  const FILE := File("route_guide.proto", "routeguide", [ROUTE_GUIDE], false, false)

  /** A template type with one argument, and with two. */
  function Of(template: string, t: string): string {
    template + "<" + t + ">"
  }

  function Of2(template: string, t: string, u: string): string {
    template + ("<" + t + ", " + u + ">")
  }

  // ------------------------------------------------------------ the header

  const CLIENT_GET_FEATURE := [
    StubDeclared("GetFeature", Sync, "::grpc_cb::Status", ["::routeguide::Point", "::routeguide::Feature"]),
    StubAlias("GetFeature_RespCb", Of("::grpc_cb::MsgCbTmpl", "::routeguide::Feature")),
    StubDeclared("GetFeature", Async, "void", ["::routeguide::Point", "GetFeature_RespCb", "::grpc_cb::ErrorCb"])]

  const CLIENT_LIST_FEATURES := [
    StubAlias("ListFeatures_SyncReader",
              Of2("::grpc_cb::ClientSyncReader", "::routeguide::Rectangle", "::routeguide::Feature")),
    StubDeclared("ListFeatures", Sync, "ListFeatures_SyncReader", ["::routeguide::Rectangle"]),
    StubAlias("ListFeatures_MsgCb", Of("::grpc_cb::MsgCbTmpl", "::routeguide::Feature")),
    StubDeclared("ListFeatures", Async, "void",
                 ["::routeguide::Rectangle", "ListFeatures_MsgCb", "::grpc_cb::StatusCb"])]

  const CLIENT_RECORD_ROUTE := [
    StubAlias("RecordRoute_SyncWriter",
              Of2("::grpc_cb::ClientSyncWriter", "::routeguide::Point", "::routeguide::RouteSummary")),
    StubDeclared("RecordRoute", Sync, "RecordRoute_SyncWriter", []),
    StubAlias("RecordRoute_AsyncWriter",
              Of2("::grpc_cb::ClientAsyncWriter", "::routeguide::Point", "::routeguide::RouteSummary")),
    StubDeclared("RecordRoute", Async, "RecordRoute_AsyncWriter", [])]

  const CLIENT_ROUTE_CHAT := [
    StubAlias("RouteChat_SyncReaderWriter",
              Of2("::grpc_cb::ClientSyncReaderWriter", "::routeguide::RouteNote", "::routeguide::RouteNote")),
    StubDeclared("RouteChat", Sync, "RouteChat_SyncReaderWriter", []),
    StubAlias("RouteChat_AsyncReaderWriter",
              Of2("::grpc_cb::ClientAsyncReaderWriter", "::routeguide::RouteNote", "::routeguide::RouteNote")),
    StubDeclared("RouteChat", Async, "RouteChat_AsyncReaderWriter", ["::grpc_cb::StatusCb"])]

  const SERVER_GET_FEATURE := [
    Alias("GetFeature_Replier", Of("::grpc_cb::ServerReplier", "::routeguide::Feature")),
    Declared("GetFeature", "void", ["::routeguide::Point", "GetFeature_Replier"]),
    Declared("GetFeature", "void", ["grpc_byte_buffer", "GetFeature_Replier"])]

  const SERVER_LIST_FEATURES := [
    Alias("ListFeatures_Writer", Of("::grpc_cb::ServerWriter", "::routeguide::Feature")),
    Declared("ListFeatures", "void", ["::routeguide::Rectangle", "ListFeatures_Writer"]),
    Declared("ListFeatures", "void", ["grpc_byte_buffer", "ListFeatures_Writer"])]

  const SERVER_RECORD_ROUTE := [
    Alias("RecordRoute_Replier", Of("::grpc_cb::ServerReplier", "::routeguide::RouteSummary")),
    Alias("RecordRoute_Reader",
          Of2("::grpc_cb::ServerReaderForClientSideStreaming", "::routeguide::Point", "::routeguide::RouteSummary")),
    Alias("RecordRoute_ReaderSptr", Of("std::shared_ptr", "RecordRoute_Reader")),
    Declared("RecordRoute", "RecordRoute_ReaderSptr", ["RecordRoute_Replier"]),
    Declared("RecordRoute", "void", ["::grpc_cb::CallSptr"])]

  const SERVER_ROUTE_CHAT := [
    Alias("RouteChat_Writer", Of("::grpc_cb::ServerWriter", "::routeguide::RouteNote")),
    Alias("RouteChat_Reader",
          Of2("::grpc_cb::ServerReaderForBidiStreaming", "::routeguide::RouteNote", "::routeguide::RouteNote")),
    Alias("RouteChat_ReaderSptr", Of("std::shared_ptr", "RouteChat_Reader")),
    Declared("RouteChat", "RouteChat_ReaderSptr", ["RouteChat_Writer"]),
    Declared("RouteChat", "void", ["::grpc_cb::CallSptr"])]

  const HEADER_SERVICE :=
    [Open("RouteGuide"), GetterDeclared, StubClass, StubConstructorDeclared]
    + (CLIENT_GET_FEATURE + CLIENT_LIST_FEATURES + CLIENT_RECORD_ROUTE + CLIENT_ROUTE_CHAT)
    + [MemberDeclared("Service"), MemberDeclared("~Service"),
       MemberDeclared("GetMethodName"), MemberDeclared("CallMethod")]
    + (SERVER_GET_FEATURE + SERVER_LIST_FEATURES + SERVER_RECORD_ROUTE + SERVER_ROUTE_CHAT)
    + [GetDescriptor, Close("RouteGuide")]

  const GUARD := "GRPC_CB_route_5fguide_2eproto__INCLUDED"

  const HEADER :=
    [GuardBegin(GUARD)] + [Open("routeguide")] + HEADER_SERVICE + ([Close("routeguide")] + [GuardEnd(GUARD)])

  // ------------------------------------------------------------ the source

  const STUBS_GET_FEATURE := [
    StubCall("GetFeature", Sync, "::grpc_cb::Status", ["::routeguide::Point", "::routeguide::Feature"], "0"),
    StubCall("GetFeature", Async, "void", ["::routeguide::Point", "GetFeature_RespCb", "::grpc_cb::ErrorCb"], "0")]

  const STUBS_LIST_FEATURES := [
    StubCall("ListFeatures", Sync, "ListFeatures_SyncReader", ["::routeguide::Rectangle"], "1"),
    StubCall("ListFeatures", Async, "void",
             ["::routeguide::Rectangle", "ListFeatures_MsgCb", "::grpc_cb::StatusCb"], "1")]

  const STUBS_RECORD_ROUTE := [
    StubCall("RecordRoute", Sync, "RecordRoute_SyncWriter", [], "2"),
    StubCall("RecordRoute", Async, "RecordRoute_AsyncWriter", [], "2")]

  const STUBS_ROUTE_CHAT := [
    StubCall("RouteChat", Sync, "RouteChat_SyncReaderWriter", [], "3"),
    StubCall("RouteChat", Async, "RouteChat_AsyncReaderWriter", ["::grpc_cb::StatusCb"], "3")]

  const CASE_GET_FEATURE := [Case("0", "GetFeature", ["grpc_byte_buffer", "GetFeature_Replier"])]
  const CASE_LIST_FEATURES := [Case("1", "ListFeatures", ["grpc_byte_buffer", "ListFeatures_Writer"])]
  const CASE_RECORD_ROUTE := [Case("2", "RecordRoute", ["::grpc_cb::CallSptr"])]
  const CASE_ROUTE_CHAT := [Case("3", "RouteChat", ["::grpc_cb::CallSptr"])]

  const DEFINED_GET_FEATURE := [
    Defined("GetFeature", "void", ["grpc_byte_buffer", "GetFeature_Replier"]),
    Defined("GetFeature", "void", ["::routeguide::Point", "GetFeature_Replier"])]

  const DEFINED_LIST_FEATURES := [
    Defined("ListFeatures", "void", ["grpc_byte_buffer", "ListFeatures_Writer"]),
    Defined("ListFeatures", "void", ["::routeguide::Rectangle", "ListFeatures_Writer"])]

  const DEFINED_RECORD_ROUTE := [
    Defined("RecordRoute", "void", ["::grpc_cb::CallSptr"]),
    Defined("RecordRoute", "RecordRoute_ReaderSptr", ["RecordRoute_Replier"])]

  const DEFINED_ROUTE_CHAT := [
    Defined("RouteChat", "void", ["::grpc_cb::CallSptr"]),
    Defined("RouteChat", "RouteChat_ReaderSptr", ["RouteChat_Writer"])]

  const TABLE := [
    MethodName("/routeguide.RouteGuide/GetFeature"),
    MethodName("/routeguide.RouteGuide/ListFeatures"),
    MethodName("/routeguide.RouteGuide/RecordRoute"),
    MethodName("/routeguide.RouteGuide/RouteChat")]

  const SOURCE_SERVICE :=
    [Open("RouteGuide")] + TABLE + [Getter("RouteGuide"), StubConstructor]
    + (STUBS_GET_FEATURE + STUBS_LIST_FEATURES + STUBS_RECORD_ROUTE + STUBS_ROUTE_CHAT)
    + [MemberDefined("Service"), MemberDefined("~Service"),
       MemberDefined("GetMethodName"), MemberDefined("CallMethod")]
    + (CASE_GET_FEATURE + CASE_LIST_FEATURES + CASE_RECORD_ROUTE + CASE_ROUTE_CHAT)
    + (DEFINED_GET_FEATURE + DEFINED_LIST_FEATURES + DEFINED_RECORD_ROUTE + DEFINED_ROUTE_CHAT)
    + [Close("RouteGuide")]

  const ASSIGN_DESC := "AssignDesc_route_5fguide_2eproto"

  const DESCRIPTORS :=
    [Open("")] + [DescriptorVariable("RouteGuide")]
    + ([AssignDescriptors(ASSIGN_DESC)] + [DescriptorAssignment("RouteGuide", "0")]
       + [AssignDescriptorsOnce(ASSIGN_DESC), Close("")])

  const SOURCE := [Open("routeguide")] + DESCRIPTORS + SOURCE_SERVICE + [Close("routeguide")]

  // ------------------------------------------------------------ names

  lemma OnePart()
    ensures Split("routeguide", ".") == ["routeguide"] && Join(["routeguide"], "::") == "routeguide"
  {
    SplitSolid("routeguide", '.');
  }

  lemma InPackage(name: string)
    ensures Scoped(TopLevel("routeguide", name)) == "::routeguide::" + name
  {
    hide Split, Join;
    OnePart();
    assert Inner([]) == "" && [name][1..] == [];
    assert "routeguide" + "::" == "routeguide::";
    assert "::" + "routeguide::" == "::routeguide::";
    assert "::routeguide::" + name + "" == "::routeguide::" + name;
  }

  lemma NamesAreScoped()
    ensures Scoped(POINT) == "::routeguide::Point" && Scoped(RECTANGLE) == "::routeguide::Rectangle"
    ensures Scoped(FEATURE) == "::routeguide::Feature" && Scoped(ROUTE_NOTE) == "::routeguide::RouteNote"
    ensures Scoped(ROUTE_SUMMARY) == "::routeguide::RouteSummary"
  {
    hide Scoped;
    InPackage("Point");
    InPackage("Rectangle");
    InPackage("Feature");
    InPackage("RouteNote");
    InPackage("RouteSummary");
    assert "::routeguide::" + "Point" == "::routeguide::Point";
    assert "::routeguide::" + "Rectangle" == "::routeguide::Rectangle";
    assert "::routeguide::" + "Feature" == "::routeguide::Feature";
    assert "::routeguide::" + "RouteNote" == "::routeguide::RouteNote";
    assert "::routeguide::" + "RouteSummary" == "::routeguide::RouteSummary";
  }

  lemma {:induction false} IdentifierConcat(a: ByteString, b: ByteString)
    ensures Identifier(a + b) == Identifier(a) + Identifier(b)
  {
    if a == [] {
      assert a + b == b;
    } else {
      assert (a + b)[1..] == a[1..] + b;
      IdentifierConcat(a[1..], b);
    }
  }

  lemma {:induction false} IdentifierKeeps(a: ByteString)
    requires forall c | c in a :: IsAlnum(c)
    ensures Identifier(a) == a
  {
    if a != [] {
      assert a[0] in a && forall c | c in a[1..] :: c in a;
      IdentifierKeeps(a[1..]);
    }
  }

  lemma EscapedSigns()
    ensures Identifier("_") == "_5f" && Identifier(".") == "_2e"
  {
    assert Identifier([]) == "";
    assert ['_', Hex(5), Hex(15)] == "_5f" && ['_', Hex(2), Hex(14)] == "_2e";
  }

  lemma BaseIdentifier()
    ensures Identifier("route_guide") == "route_5fguide"
  {
    hide Identifier;
    EscapedSigns();
    IdentifierKeeps("route");
    IdentifierKeeps("guide");
    IdentifierConcat("route", "_");
    IdentifierConcat("route_", "guide");
    assert "route" + "_" == "route_" && "route_" + "guide" == "route_guide";
    assert "route" + "_5f" == "route_5f" && "route_5f" + "guide" == "route_5fguide";
  }

  lemma FileIdentifier()
    ensures Identifier("route_guide.proto") == "route_5fguide_2eproto"
  {
    hide Identifier;
    EscapedSigns();
    BaseIdentifier();
    IdentifierKeeps("proto");
    IdentifierConcat("route_guide", ".");
    IdentifierConcat("route_guide.", "proto");
    assert "route_guide" + "." == "route_guide." && "route_guide." + "proto" == "route_guide.proto";
    assert "route_5fguide" + "_2e" == "route_5fguide_2e" && "route_5fguide_2e" + "proto" == "route_5fguide_2eproto";
  }

  lemma GuardIs()
    ensures IncludeGuard(FILE.name) == GUARD
  {
    hide Identifier;
    FileIdentifier();
    assert "GRPC_CB_" + "route_5fguide_2eproto" == "GRPC_CB_route_5fguide_2eproto";
    assert "GRPC_CB_route_5fguide_2eproto" + "__INCLUDED" == GUARD;
  }

  lemma AssignDescIs()
    ensures AssignDescriptorsName(FILE.name) == ASSIGN_DESC
  {
    hide Identifier;
    FileIdentifier();
    assert "AssignDesc_" + "route_5fguide_2eproto" == ASSIGN_DESC;
  }

  /** A template and its arguments, however they were put together. */
  lemma Around(template: string, t: string, u: string)
    ensures template + "<" + t + ", " + u + ">" == Of2(template, t, u)
  {
  }

  lemma OneArgument(t: string)
    ensures "::grpc_cb::MsgCbTmpl<" + t + ">" == Of("::grpc_cb::MsgCbTmpl", t)
    ensures "::grpc_cb::ServerReplier<" + t + ">" == Of("::grpc_cb::ServerReplier", t)
    ensures "::grpc_cb::ServerWriter<" + t + ">" == Of("::grpc_cb::ServerWriter", t)
  {
    assert "::grpc_cb::MsgCbTmpl<" == "::grpc_cb::MsgCbTmpl" + "<";
    assert "::grpc_cb::ServerReplier<" == "::grpc_cb::ServerReplier" + "<";
    assert "::grpc_cb::ServerWriter<" == "::grpc_cb::ServerWriter" + "<";
  }

  lemma ReaderTypes(t: string, u: string)
    ensures "::grpc_cb::ServerReaderFor" + "ClientSideStreaming" + "<" + t + ", " + u + ">"
            == Of2("::grpc_cb::ServerReaderForClientSideStreaming", t, u)
    ensures "::grpc_cb::ServerReaderFor" + "BidiStreaming" + "<" + t + ", " + u + ">"
            == Of2("::grpc_cb::ServerReaderForBidiStreaming", t, u)
  {
    hide Of2;
    assert "::grpc_cb::ServerReaderFor" + "ClientSideStreaming" == "::grpc_cb::ServerReaderForClientSideStreaming";
    assert "::grpc_cb::ServerReaderFor" + "BidiStreaming" == "::grpc_cb::ServerReaderForBidiStreaming";
    Around("::grpc_cb::ServerReaderForClientSideStreaming", t, u);
    Around("::grpc_cb::ServerReaderForBidiStreaming", t, u);
  }

  lemma SharedPointer(name: string)
    ensures "std::shared_ptr<" + name + "_Reader>" == Of("std::shared_ptr", name + "_Reader")
  {
    assert "std::shared_ptr<" == "std::shared_ptr" + "<" && "_Reader>" == "_Reader" + ">";
    assert "std::shared_ptr<" + name + ("_Reader" + ">") == "std::shared_ptr<" + (name + "_Reader") + ">";
  }

  // ------------------------------------------------------------ methods

  lemma GetFeatureWords()
    ensures var n := "GetFeature";
            n + "_RespCb" == "GetFeature_RespCb" && n + "_Replier" == "GetFeature_Replier"
  {
  }

  lemma GetFeatureHeader()
    ensures ClientItems(GET_FEATURE) == CLIENT_GET_FEATURE
    ensures DeclarationItems(GET_FEATURE) == SERVER_GET_FEATURE
  {
    hide Scoped, Of;
    NamesAreScoped();
    GetFeatureWords();
    OneArgument("::routeguide::Feature");
  }

  lemma GetFeatureSource()
    ensures StubItems(GET_FEATURE, "0") == STUBS_GET_FEATURE && CaseFor(GET_FEATURE, "0") == CASE_GET_FEATURE
    ensures DefinitionItems(GET_FEATURE) == DEFINED_GET_FEATURE
  {
    hide Scoped;
    NamesAreScoped();
    GetFeatureWords();
  }

  lemma ListFeaturesWords()
    ensures var n := "ListFeatures";
            && n + "_SyncReader" == "ListFeatures_SyncReader" && n + "_MsgCb" == "ListFeatures_MsgCb"
            && n + "_Writer" == "ListFeatures_Writer"
  {
  }

  lemma ListFeaturesHeader()
    ensures ClientItems(LIST_FEATURES) == CLIENT_LIST_FEATURES
    ensures DeclarationItems(LIST_FEATURES) == SERVER_LIST_FEATURES
  {
    hide Scoped, Of;
    NamesAreScoped();
    ListFeaturesWords();
    OneArgument("::routeguide::Feature");
  }

  lemma ListFeaturesSource()
    ensures StubItems(LIST_FEATURES, "1") == STUBS_LIST_FEATURES && CaseFor(LIST_FEATURES, "1") == CASE_LIST_FEATURES
    ensures DefinitionItems(LIST_FEATURES) == DEFINED_LIST_FEATURES
  {
    hide Scoped;
    NamesAreScoped();
    ListFeaturesWords();
  }

  lemma RecordRouteWords()
    ensures var n := "RecordRoute";
            && n + "_SyncWriter" == "RecordRoute_SyncWriter" && n + "_AsyncWriter" == "RecordRoute_AsyncWriter"
            && n + "_Replier" == "RecordRoute_Replier" && n + "_Reader" == "RecordRoute_Reader"
            && n + "_ReaderSptr" == "RecordRoute_ReaderSptr"
  {
  }

  lemma RecordRouteHeader()
    ensures ClientItems(RECORD_ROUTE) == CLIENT_RECORD_ROUTE
    ensures DeclarationItems(RECORD_ROUTE) == SERVER_RECORD_ROUTE
  {
    hide Scoped, Of;
    NamesAreScoped();
    RecordRouteWords();
    OneArgument("::routeguide::RouteSummary");
    ReaderTypes("::routeguide::Point", "::routeguide::RouteSummary");
    SharedPointer("RecordRoute");
  }

  lemma RecordRouteSource()
    ensures StubItems(RECORD_ROUTE, "2") == STUBS_RECORD_ROUTE && CaseFor(RECORD_ROUTE, "2") == CASE_RECORD_ROUTE
    ensures DefinitionItems(RECORD_ROUTE) == DEFINED_RECORD_ROUTE
  {
    hide Scoped;
    RecordRouteWords();
  }

  lemma RouteChatWords()
    ensures var n := "RouteChat";
            && n + "_SyncReaderWriter" == "RouteChat_SyncReaderWriter"
            && n + "_AsyncReaderWriter" == "RouteChat_AsyncReaderWriter"
            && n + "_Writer" == "RouteChat_Writer" && n + "_Reader" == "RouteChat_Reader"
            && n + "_ReaderSptr" == "RouteChat_ReaderSptr"
  {
  }

  lemma RouteChatHeader()
    ensures ClientItems(ROUTE_CHAT) == CLIENT_ROUTE_CHAT
    ensures DeclarationItems(ROUTE_CHAT) == SERVER_ROUTE_CHAT
  {
    hide Scoped, Of;
    NamesAreScoped();
    RouteChatWords();
    OneArgument("::routeguide::RouteNote");
    ReaderTypes("::routeguide::RouteNote", "::routeguide::RouteNote");
    SharedPointer("RouteChat");
  }

  lemma RouteChatSource()
    ensures StubItems(ROUTE_CHAT, "3") == STUBS_ROUTE_CHAT && CaseFor(ROUTE_CHAT, "3") == CASE_ROUTE_CHAT
    ensures DefinitionItems(ROUTE_CHAT) == DEFINED_ROUTE_CHAT
  {
    hide Scoped;
    RouteChatWords();
  }

  lemma PathFront()
    ensures "/" + PackagePrefix("routeguide") + "RouteGuide" + "/" == "/routeguide.RouteGuide/"
  {
    assert PackagePrefix("routeguide") == "routeguide.";
    assert "/" + "routeguide." == "/routeguide." && "/routeguide." + "RouteGuide" == "/routeguide.RouteGuide";
    assert "/routeguide.RouteGuide" + "/" == "/routeguide.RouteGuide/";
  }

  lemma PathWords()
    ensures "/routeguide.RouteGuide/" + "GetFeature" == "/routeguide.RouteGuide/GetFeature"
    ensures "/routeguide.RouteGuide/" + "ListFeatures" == "/routeguide.RouteGuide/ListFeatures"
    ensures "/routeguide.RouteGuide/" + "RecordRoute" == "/routeguide.RouteGuide/RecordRoute"
    ensures "/routeguide.RouteGuide/" + "RouteChat" == "/routeguide.RouteGuide/RouteChat"
  {
  }

  lemma TableIs()
    ensures var f := NameItem(PackagePrefix("routeguide"), "RouteGuide");
            f(GET_FEATURE, 0) + f(LIST_FEATURES, 1) + f(RECORD_ROUTE, 2) + f(ROUTE_CHAT, 3) == TABLE
  {
    hide PackagePrefix;
    PathFront();
    PathWords();
  }

  // ------------------------------------------------------------ files

  lemma {:induction false} EachFour<T>(ts: seq<T>, f: (T, nat) -> seq<Item>)
    requires |ts| == 4
    ensures Each(ts, f, 0) == f(ts[0], 0) + f(ts[1], 1) + f(ts[2], 2) + f(ts[3], 3)
  {
    EachStep(ts, f, 0, []);
    EachStep(ts, f, 1, f(ts[0], 0));
    EachStep(ts, f, 2, f(ts[0], 0) + f(ts[1], 1));
    EachStep(ts, f, 3, f(ts[0], 0) + f(ts[1], 1) + f(ts[2], 2));
    EachEnds(ts, f, f(ts[0], 0) + f(ts[1], 1) + f(ts[2], 2) + f(ts[3], 3));
  }

  lemma EachOne<T>(t: T, f: (T, nat) -> seq<Item>)
    ensures Each([t], f, 0) == f(t, 0)
  {
    assert Each([], f, 1) == [];
  }

  lemma HeaderServiceIs()
    ensures HeaderServiceItems(ROUTE_GUIDE) == HEADER_SERVICE
  {
    hide Each, ClientItems, DeclarationItems;
    hide CLIENT_GET_FEATURE, CLIENT_LIST_FEATURES, CLIENT_RECORD_ROUTE, CLIENT_ROUTE_CHAT;
    hide SERVER_GET_FEATURE, SERVER_LIST_FEATURES, SERVER_RECORD_ROUTE, SERVER_ROUTE_CHAT;
    GetFeatureHeader();
    ListFeaturesHeader();
    RecordRouteHeader();
    RouteChatHeader();
    EachFour(ROUTE_GUIDE.methods, ClientItemsAt);
    EachFour(ROUTE_GUIDE.methods, DeclarationsAt);
  }

  lemma PartsOfFile()
    ensures Parts(FILE) == ["routeguide"] == Reversed(Parts(FILE))
  {
    hide Split;
    OnePart();
    assert Reversed([]) == [];
  }

  /** The generated header is the one in the repository. */
  lemma HeaderIs()
    ensures HeaderItems(FILE, "") == HEADER
  {
    hide Each, Parts, Reversed, HeaderServiceItems, IncludeGuard, HEADER_SERVICE, GUARD;
    GuardIs();
    PartsOfFile();
    HeaderServiceIs();
    EachOne("routeguide", OpenItem);
    EachOne("routeguide", CloseItem);
    EachOne(ROUTE_GUIDE, HeaderServiceAt);
    assert [] + HEADER_SERVICE + [] == HEADER_SERVICE;
  }

  lemma FourNumbers()
    ensures DecimalNat(0) == "0" && DecimalNat(1) == "1" && DecimalNat(2) == "2" && DecimalNat(3) == "3"
  {
  }

  lemma SourceLoopsAre()
    ensures Each(ROUTE_GUIDE.methods, StubItemsAt, 0)
            == STUBS_GET_FEATURE + STUBS_LIST_FEATURES + STUBS_RECORD_ROUTE + STUBS_ROUTE_CHAT
    ensures Each(ROUTE_GUIDE.methods, CaseItem, 0)
            == CASE_GET_FEATURE + CASE_LIST_FEATURES + CASE_RECORD_ROUTE + CASE_ROUTE_CHAT
    ensures Each(ROUTE_GUIDE.methods, DefinitionsAt, 0)
            == DEFINED_GET_FEATURE + DEFINED_LIST_FEATURES + DEFINED_RECORD_ROUTE + DEFINED_ROUTE_CHAT
  {
    hide Each, DecimalNat, StubItems, CaseFor, DefinitionItems;
    hide STUBS_GET_FEATURE, STUBS_LIST_FEATURES, STUBS_RECORD_ROUTE, STUBS_ROUTE_CHAT;
    hide CASE_GET_FEATURE, CASE_LIST_FEATURES, CASE_RECORD_ROUTE, CASE_ROUTE_CHAT;
    hide DEFINED_GET_FEATURE, DEFINED_LIST_FEATURES, DEFINED_RECORD_ROUTE, DEFINED_ROUTE_CHAT;
    FourNumbers();
    GetFeatureSource();
    ListFeaturesSource();
    RecordRouteSource();
    RouteChatSource();
    EachFour(ROUTE_GUIDE.methods, StubItemsAt);
    EachFour(ROUTE_GUIDE.methods, CaseItem);
    EachFour(ROUTE_GUIDE.methods, DefinitionsAt);
  }

  lemma SourceServiceIs()
    ensures SourceServiceItems(PackagePrefix("routeguide"), ROUTE_GUIDE) == SOURCE_SERVICE
  {
    hide Each, NameItem, StubItemsAt, CaseItem, DefinitionsAt, TABLE, PackagePrefix;
    hide STUBS_GET_FEATURE, STUBS_LIST_FEATURES, STUBS_RECORD_ROUTE, STUBS_ROUTE_CHAT;
    hide CASE_GET_FEATURE, CASE_LIST_FEATURES, CASE_RECORD_ROUTE, CASE_ROUTE_CHAT;
    hide DEFINED_GET_FEATURE, DEFINED_LIST_FEATURES, DEFINED_RECORD_ROUTE, DEFINED_ROUTE_CHAT;
    TableIs();
    EachFour(ROUTE_GUIDE.methods, NameItem(PackagePrefix("routeguide"), "RouteGuide"));
    SourceLoopsAre();
  }

  lemma DescriptorsAre()
    ensures DescriptorItems(FILE) == DESCRIPTORS
  {
    hide Each, AssignDescriptorsName, DecimalNat, ASSIGN_DESC;
    AssignDescIs();
    FourNumbers();
    EachOne(ROUTE_GUIDE, VariableItem);
    EachOne(ROUTE_GUIDE, AssignmentItem);
  }

  /** The generated source is the one in the repository. */
  lemma SourceIs()
    ensures SourceItems(FILE) == SOURCE
  {
    hide Each, Parts, SourceServiceItems, DescriptorItems, PackagePrefix, SOURCE_SERVICE, DESCRIPTORS;
    PartsOfFile();
    DescriptorsAre();
    SourceServiceIs();
    EachOne("routeguide", OpenItem);
    EachOne("routeguide", CloseItem);
    EachOne(ROUTE_GUIDE, SourceServiceOf(PackagePrefix("routeguide")));
  }
}
