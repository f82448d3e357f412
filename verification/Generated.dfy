/** The services the code generator reads, the items it emits, and what the items mean. */
module Generated {
  import opened ClassNames
  import opened Decimals
  import opened Names
  import opened Wrappers

  // ------------------------------------------------------------- descriptors

  datatype Method = Method(
    name: string, input: Descriptor, output: Descriptor, clientStreaming: bool, serverStreaming: bool)
  {
    predicate NoStreaming() {
      !clientStreaming && !serverStreaming
    }

    predicate ClientOnlyStreaming() {
      clientStreaming && !serverStreaming
    }

    predicate ServerOnlyStreaming() {
      !clientStreaming && serverStreaming
    }

    predicate Valid() {
      input.Valid() && output.Valid()
    }
  }

  datatype Service = Service(name: string, methods: seq<Method>) {
    predicate Valid() {
      forall m | m in methods :: m.Valid()
    }
  }

  datatype File = File(
    name: ByteString, package: string, services: seq<Service>, lite: bool, genericServices: bool)
  {
    predicate Valid() {
      forall s | s in services :: s.Valid()
    }

    predicate HasDescriptorMethods() {
      !lite
    }
  }

  // -------------------------------------------------------------------- items

  datatype Variant = Sync | Async

  /** What a generated file is made of, in the order of the text; types stand without `const` and `&`. */
  datatype Item =
      /** `namespace name {`, anonymous if the name is empty. */
    | Open(name: string)
      /** A closing brace and the name in its comment. */
    | Close(comment: string)
      /** `#ifndef` and `#define`, and the `#endif` of the same guard. */
    | GuardBegin(guard: string)
    | GuardEnd(guard: string)
      /** `class Stub`, and its constructor: in the class, and in the source. */
    | StubClass
    | StubConstructorDeclared
    | StubConstructor
      /** `using name = target` in class `Stub`. */
    | StubAlias(name: string, target: string)
      /** A member function of `Stub`: in the class. */
    | StubDeclared(method': string, variant: Variant, result: string, parameters: seq<string>)
      /** `using name = target` in class `Service`. */
    | Alias(name: string, target: string)
      /** A member function of `Service` for a method: in the class, and in the source. */
    | Declared(method': string, result: string, parameters: seq<string>)
    | Defined(method': string, result: string, parameters: seq<string>)
      /** A member function that every `Service` has: in the class, and in the source. */
    | MemberDeclared(member: string)
    | MemberDefined(member: string)
      /** `GetServiceDescriptor`: in the header, and in the source, where it answers the variable of the service. */
    | GetterDeclared
    | Getter(service: string)
      /** `GetDescriptor` of class `Service`, inline: it answers what the getter does. */
    | GetDescriptor
      /** The variable for the descriptor of a service, and its assignment from `file->service(index)`. */
    | DescriptorVariable(service: string)
    | DescriptorAssignment(service: string, index: string)
    | AssignDescriptors(name: string)
      /** `AssignDescriptorsOnce`, which every getter calls, and the function it runs. */
    | AssignDescriptorsOnce(name: string)
      /** An element of `method_names`. */
    | MethodName(path: string)
      /** A member function of `Stub`: in the source, where it uses `method_names[index]`. */
    | StubCall(method': string, variant: Variant, result: string, parameters: seq<string>, index: string)
      /** `case index:` of `CallMethod`, with the function it calls and the types of the arguments. */
    | Case(index: string, handler: string, arguments: seq<string>)

  // ------------------------------------------------------- namespaces of items

  datatype Stack = Broken | Names(names: seq<string>)

  /** The open namespaces after the items; broken if a brace closes nothing or its comment names another. */
  function Nest(items: seq<Item>, names: seq<string>): Stack {
    if items == [] then Names(names)
    else if items[0].Open? then Nest(items[1..], names + [items[0].name])
    else if items[0].Close? then
      if names == [] || names[|names| - 1] != items[0].comment then Broken
      else Nest(items[1..], names[..|names| - 1])
    else Nest(items[1..], names)
  }

  /** The number of open braces after the items, whatever the comments say; -1 if a brace closes nothing. */
  function Depth(items: seq<Item>, depth: nat): int {
    if items == [] then depth
    else if items[0].Open? then Depth(items[1..], depth + 1)
    else if items[0].Close? then if depth == 0 then -1 else Depth(items[1..], depth - 1)
    else Depth(items[1..], depth)
  }

  /** The namespaces around every `Stub` the items declare or define. */
  function Scopes(items: seq<Item>, names: seq<string>): seq<seq<string>> {
    if items == [] then []
    else if items[0].Open? then Scopes(items[1..], names + [items[0].name])
    else if items[0].Close? then Scopes(items[1..], if names == [] then [] else names[..|names| - 1])
    else if items[0].StubClass? || items[0].StubConstructor? then [names] + Scopes(items[1..], names)
    else Scopes(items[1..], names)
  }

  // ------------------------------------------------------------ calls of items

  /** The table `method_names`. */
  function MethodNames(items: seq<Item>): seq<string> {
    if items == [] then []
    else if items[0].MethodName? then [items[0].path] + MethodNames(items[1..])
    else MethodNames(items[1..])
  }

  /** What `CallMethod` calls for an index. */
  function Handler(items: seq<Item>, index: nat): Option<string> {
    if items == [] then None
    else if items[0].Case? && items[0].index == DecimalNat(index) then Some(items[0].handler)
    else Handler(items[1..], index)
  }

  /** The index under which a server finds a path. */
  function IndexOf(names: seq<string>, path: string): Option<nat> {
    if names == [] then None
    else if names[0] == path then Some(0)
    else
      match IndexOf(names[1..], path)
      case None => None
      case Some(i) => Some(i + 1)
  }

  /** The path a stub function sends. */
  function Sent(items: seq<Item>, call: Item): Option<string>
    requires call.StubCall?
  {
    var names := MethodNames(items);
    if (forall c | c in call.index :: IsDigit(c)) && DigitsValue(call.index) < |names|
    then Some(names[DigitsValue(call.index)])
    else None
  }

  /** The handler a call of a stub function ends in. */
  function Reached(items: seq<Item>, call: Item): Option<string>
    requires call.StubCall?
  {
    match Sent(items, call)
    case None => None
    case Some(path) =>
      match IndexOf(MethodNames(items), path)
      case None => None
      case Some(i) => Handler(items, i)
  }

  // ------------------------------------------------------------ types of items

  /** What a type name stands for, given the aliases of class `Service`. */
  function Meaning(items: seq<Item>, name: string): string {
    if items == [] then name
    else if items[0].Alias? && items[0].name == name then items[0].target
    else Meaning(items[1..], name)
  }

  function Meanings(items: seq<Item>, names: seq<string>): seq<string> {
    seq(|names|, i requires 0 <= i < |names| => Meaning(items, names[i]))
  }

  // ------------------------------------------------------ descriptors of items

  /** The service index that a descriptor variable was assigned last. */
  function Assigned(items: seq<Item>, service: string): Option<string> {
    if items == [] then None
    else if Assigned(items[1..], service).Some? then Assigned(items[1..], service)
    else if items[0].DescriptorAssignment? && items[0].service == service then Some(items[0].index)
    else None
  }

  /** Are the variable of a getter and all functions it runs there? */
  predicate GetterComplete(items: seq<Item>, service: string) {
    && DescriptorVariable(service) in items
    && exists x :: x in items && x.AssignDescriptorsOnce? && AssignDescriptors(x.name) in items
  }

  /** The index of the service whose descriptor the getter of a service answers. */
  function Described(items: seq<Item>, service: string): Option<string> {
    if GetterComplete(items, service) then Assigned(items, service) else None
  }
}
