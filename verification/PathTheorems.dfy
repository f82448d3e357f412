/** The paths of the generated source: which they are, and that no two of them meet. */
module PathTheorems {
  import opened Strings
  import opened ClassNames
  import Names
  import opened Generated
  import opened Emission
  import opened StubTheorems

  /** A slash, the full name of the service, a slash, the name of the method. */
  function MethodPath(package: string, service: string, method': string): string {
    "/" + TopLevel(package, service).FullName() + "/" + method'
  }

  function ServicePaths(package: string, s: Service): (paths: seq<string>)
    ensures |paths| == |s.methods|
    ensures forall j | 0 <= j < |paths| :: paths[j] == MethodPath(package, s.name, s.methods[j].name)
  {
    seq(|s.methods|, j requires 0 <= j < |s.methods| => MethodPath(package, s.name, s.methods[j].name))
  }

  /** The paths of all methods, service by service. */
  function PathsOf(package: string, services: seq<Service>): seq<string> {
    if services == [] then []
    else ServicePaths(package, services[0]) + PathsOf(package, services[1..])
  }

  // ------------------------------------------------------------ what is emitted

  lemma PrefixIs(package: string, service: string)
    ensures PackagePrefix(package) + service == TopLevel(package, service).FullName()
  {
  }

  lemma TableIs(package: string, s: Service)
    ensures MethodNames(SourceServiceItems(PackagePrefix(package), s)) == ServicePaths(package, s)
  {
    hide SourceServiceItems, Each, MethodNames, NameItem, PackagePrefix;
    var prefix := PackagePrefix(package);
    ServiceParts(prefix, s, 0);
    NamesOf(prefix, s.name, s.methods, 0);
    PrefixIs(package, s.name);
    assert "/" + prefix + s.name == "/" + (prefix + s.name);
  }

  lemma {:induction false} TablesAre(package: string, services: seq<Service>, first: nat)
    ensures MethodNames(Each(services, SourceServiceOf(PackagePrefix(package)), first)) == PathsOf(package, services)
  {
    hide MethodNames, PackagePrefix, SourceServiceItems, ServicePaths;
    var f := SourceServiceOf(PackagePrefix(package));
    if services == [] {
      NothingThere([], 0);
    } else {
      TableIs(package, services[0]);
      TablesAre(package, services[1..], first + 1);
      MethodNamesConcat(f(services[0], first), Each(services[1..], f, first + 1));
    }
  }

  lemma NoNames<T>(ts: seq<T>, f: (T, nat) -> seq<Item>)
    requires forall t, i: nat, x | x in f(t, i) :: !x.MethodName?
    ensures MethodNames(Each(ts, f, 0)) == []
  {
    hide Each, MethodNames;
    forall x | x in Each(ts, f, 0)
      ensures !x.MethodName?
    {
      var j := FromElement(ts, f, 0, x);
    }
    NothingThere(Each(ts, f, 0), 0);
  }

  lemma DescriptorsHaveNoNames(file: File)
    ensures MethodNames(DescriptorItems(file)) == []
  {
    hide Each, MethodNames;
    NoNames(file.services, VariableItem);
    NoNames(file.services, AssignmentItem);
    var before, variables := [Open("")], Each(file.services, VariableItem, 0);
    var name := Names.AssignDescriptorsName(file.name);
    var assignments := Each(file.services, AssignmentItem, 0);
    var after := [AssignDescriptorsOnce(name), Close("")];
    NothingThere(before, 0);
    NothingThere([AssignDescriptors(name)], 0);
    NothingThere(after, 0);
    NothingThere([], 0);
    MethodNamesConcat(before, variables);
    MethodNamesConcat(before + variables, []);
    MethodNamesConcat([AssignDescriptors(name)], assignments);
    MethodNamesConcat([AssignDescriptors(name)] + assignments, after);
    MethodNamesConcat(before + variables, [AssignDescriptors(name)] + assignments + after);
  }

  /** The tables of the source hold the paths of all methods of all services, in order. */
  lemma SourcePaths(file: File)
    ensures MethodNames(SourceItems(file)) == PathsOf(file.package, file.services)
  {
    hide Each, MethodNames, DescriptorItems, PackagePrefix, SourceServiceOf, Parts;
    var opens, descriptors := Each(Parts(file), OpenItem, 0), DescriptorItems(file);
    var tables := Each(file.services, SourceServiceOf(PackagePrefix(file.package)), 0);
    var closes := Each(Parts(file), CloseItem, 0);
    NoNames(Parts(file), OpenItem);
    NoNames(Parts(file), CloseItem);
    DescriptorsHaveNoNames(file);
    TablesAre(file.package, file.services, 0);
    MethodNamesConcat(opens, descriptors);
    MethodNamesConcat(opens + descriptors, tables);
    MethodNamesConcat(opens + descriptors + tables, closes);
  }

  // ------------------------------------------------------------- no two are equal

  lemma NameCut(p: string, s: string, p': string, s': string)
    requires '.' !in s && '.' !in s' && TopLevel(p, s).FullName() == TopLevel(p', s').FullName()
    ensures p == p' && s == s'
  {
    DotInName(p, s);
    DotInName(p', s');
    if p != "" && p' != "" {
      LastCut('.', p, s, p', s');
    }
  }

  lemma DotInName(p: string, s: string)
    ensures p != "" ==> '.' in TopLevel(p, s).FullName()
  {
    if p != "" {
      assert TopLevel(p, s).FullName()[|p|] == '.';
    }
  }

  /** Different methods get different paths: of services without dots, with names without slashes. */
  lemma PathsDiffer(p: string, s: string, m: string, p': string, s': string, m': string)
    requires '.' !in s && '.' !in s' && '/' !in m && '/' !in m'
    ensures MethodPath(p, s, m) == MethodPath(p', s', m') <==> p == p' && s == s' && m == m'
  {
    if MethodPath(p, s, m) == MethodPath(p', s', m') {
      var q, q' := TopLevel(p, s).FullName(), TopLevel(p', s').FullName();
      assert MethodPath(p, s, m) == ("/" + q) + ['/'] + m;
      assert MethodPath(p', s', m') == ("/" + q') + ['/'] + m';
      LastCut('/', "/" + q, m, "/" + q', m');
      assert q == ("/" + q)[1..] == ("/" + q')[1..] == q';
      NameCut(p, s, p', s');
    }
  }

  /** Services and methods have distinct names, which are identifiers. */
  ghost predicate NamesOk(services: seq<Service>) {
    && (forall i, j | 0 <= i < j < |services| :: services[i].name != services[j].name)
    && (forall s | s in services :: '.' !in s.name && Distinct(s.methods))
    && (forall s, m | s in services && m in s.methods :: '/' !in m.name)
  }

  /** A path is that of some method. */
  lemma {:induction false} PathFrom(package: string, services: seq<Service>, path: string)
    returns (s: Service, m: Method)
    requires path in PathsOf(package, services)
    ensures s in services && m in s.methods && path == MethodPath(package, s.name, m.name)
  {
    hide MethodPath;
    if path in ServicePaths(package, services[0]) {
      var j :| 0 <= j < |services[0].methods| && path == ServicePaths(package, services[0])[j];
      s, m := services[0], services[0].methods[j];
    } else {
      s, m := PathFrom(package, services[1..], path);
    }
  }

  ghost predicate Once(paths: seq<string>) {
    forall i, j | 0 <= i < j < |paths| :: paths[i] != paths[j]
  }

  lemma OnceTogether(a: seq<string>, b: seq<string>)
    requires Once(a) && Once(b) && forall x | x in a :: x !in b
    ensures Once(a + b)
  {
    forall i, j | 0 <= i < j < |a + b|
      ensures (a + b)[i] != (a + b)[j]
    {
      if i < |a| <= j {
        assert (a + b)[i] in a && (a + b)[j] in b;
      }
    }
  }

  lemma ServicePathsOnce(package: string, s: Service)
    requires '.' !in s.name && Distinct(s.methods) && forall m | m in s.methods :: '/' !in m.name
    ensures Once(ServicePaths(package, s))
  {
    hide MethodPath;
    forall i, j | 0 <= i < j < |s.methods|
      ensures MethodPath(package, s.name, s.methods[i].name) != MethodPath(package, s.name, s.methods[j].name)
    {
      assert s.methods[i] in s.methods && s.methods[j] in s.methods;
      PathsDiffer(package, s.name, s.methods[i].name, package, s.name, s.methods[j].name);
    }
  }

  /** No path stands twice in the tables of a file, so a server finds one method for it. */
  lemma {:induction false} PathsOnce(package: string, services: seq<Service>)
    requires NamesOk(services)
    ensures Once(PathsOf(package, services))
  {
    hide Once, MethodPath, ServicePaths;
    if services == [] {
      NothingTwice();
    } else {
      var s, rest := services[0], services[1..];
      assert s in services && forall t | t in rest :: t in services;
      ServicePathsOnce(package, s);
      PathsOnce(package, rest);
      forall path | path in ServicePaths(package, s)
        ensures path !in PathsOf(package, rest)
      {
        if path in PathsOf(package, rest) {
          OtherService(package, services, path);
        }
      }
      OnceTogether(ServicePaths(package, s), PathsOf(package, rest));
    }
  }

  lemma NothingTwice()
    ensures Once([])
  {
  }

  /** The paths of the first service are of no other. */
  lemma OtherService(package: string, services: seq<Service>, path: string)
    requires services != [] && NamesOk(services) && path in ServicePaths(package, services[0])
    ensures path !in PathsOf(package, services[1..])
  {
    hide MethodPath;
    var s := services[0];
    if path in PathsOf(package, services[1..]) {
      var j :| 0 <= j < |s.methods| && path == ServicePaths(package, s)[j];
      var t, m := PathFrom(package, services[1..], path);
      assert s in services && t in services && s.methods[j] in s.methods;
      PathsDiffer(package, s.name, s.methods[j].name, package, t.name, m.name);
    }
  }
}
