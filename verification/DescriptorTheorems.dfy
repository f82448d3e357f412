/** Which descriptor `GetServiceDescriptor` of a generated service answers. */
module DescriptorTheorems {
  import opened Decimals
  import opened Names
  import opened Generated
  import opened Emission
  import opened StubTheorems
  import opened Wrappers

  predicate DistinctServices(services: seq<Service>) {
    forall i, j | 0 <= i < j < |services| :: services[i].name != services[j].name
  }

  lemma {:induction false} AssignedConcat(a: seq<Item>, b: seq<Item>, service: string)
    ensures Assigned(a + b, service)
            == if Assigned(b, service).Some? then Assigned(b, service) else Assigned(a, service)
  {
    if a == [] {
      assert a + b == b;
    } else {
      assert (a + b)[1..] == a[1..] + b;
      AssignedConcat(a[1..], b, service);
    }
  }

  lemma {:induction false} NeverAssigned(items: seq<Item>, service: string)
    requires forall x | x in items :: !x.DescriptorAssignment? || x.service != service
    ensures Assigned(items, service) == None
  {
    if items != [] {
      assert items[0] in items && forall x | x in items[1..] :: x in items;
      NeverAssigned(items[1..], service);
    }
  }

  /** In the loop each variable is assigned from its own index. */
  lemma {:induction false} AssignedInLoop(services: seq<Service>, first: nat, i: nat)
    requires i < |services| && DistinctServices(services)
    ensures Assigned(Each(services, AssignmentItem, first), services[i].name) == Some(DecimalNat(first + i))
  {
    hide DecimalNat, Assigned;
    var rest := Each(services[1..], AssignmentItem, first + 1);
    AssignedConcat(AssignmentItem(services[0], first), rest, services[i].name);
    AssignedOne(services[0], first, services[i].name);
    if i > 0 {
      AssignedInLoop(services[1..], first + 1, i - 1);
    } else {
      forall x | x in rest
        ensures !x.DescriptorAssignment? || x.service != services[0].name
      {
        var j := FromElement(services[1..], AssignmentItem, first + 1, x);
      }
      NeverAssigned(rest, services[0].name);
    }
  }

  lemma AssignedOne(s: Service, i: nat, service: string)
    ensures Assigned(AssignmentItem(s, i), service) == if s.name == service then Some(DecimalNat(i)) else None
  {
    assert Assigned([], service) == None;
  }

  /** Items that have nothing to do with descriptors. */
  predicate Unrelated(x: Item) {
    !x.DescriptorAssignment? && !x.AssignDescriptorsOnce? && !x.AssignDescriptors? && !x.DescriptorVariable?
  }

  lemma ServiceUnrelated(prefix: string, s: Service)
    ensures forall x | x in SourceServiceItems(prefix, s) :: Unrelated(x)
    ensures Getter(s.name) in SourceServiceItems(prefix, s)
  {
    hide Each;
    KindsOfItems(prefix, s);
  }

  lemma OthersUnrelated(file: File)
    ensures forall x | x in Each(Parts(file), OpenItem, 0) :: Unrelated(x)
    ensures forall x | x in Each(Parts(file), CloseItem, 0) :: Unrelated(x)
    ensures forall x | x in Each(file.services, SourceServiceOf(PackagePrefix(file.package)), 0) :: Unrelated(x)
  {
    hide Each, Parts, SourceServiceItems;
    forall x | x in Each(Parts(file), OpenItem, 0)
      ensures Unrelated(x)
    {
      var j := FromElement(Parts(file), OpenItem, 0, x);
    }
    forall x | x in Each(Parts(file), CloseItem, 0)
      ensures Unrelated(x)
    {
      var j := FromElement(Parts(file), CloseItem, 0, x);
    }
    var f := SourceServiceOf(PackagePrefix(file.package));
    forall x | x in Each(file.services, f, 0)
      ensures Unrelated(x)
    {
      var j := FromElement(file.services, f, 0, x);
      ServiceUnrelated(PackagePrefix(file.package), file.services[j]);
    }
  }

  /** Only the part with the descriptors decides what a getter answers. */
  lemma DescriptorsDecide(file: File, service: string)
    ensures Described(SourceItems(file), service) == Described(DescriptorItems(file), service)
  {
    hide Each, Assigned, DescriptorItems, Parts, SourceServiceOf;
    var opens, closes := Each(Parts(file), OpenItem, 0), Each(Parts(file), CloseItem, 0);
    var services := Each(file.services, SourceServiceOf(PackagePrefix(file.package)), 0);
    var d := DescriptorItems(file);
    OthersUnrelated(file);
    NeverAssigned(opens, service);
    NeverAssigned(services, service);
    NeverAssigned(closes, service);
    AssignedConcat(opens, d, service);
    AssignedConcat(opens + d, services, service);
    AssignedConcat(opens + d + services, closes, service);
    SameGetter(SourceItems(file), d, service);
  }

  lemma SameGetter(items: seq<Item>, d: seq<Item>, service: string)
    requires forall x | x in items :: x in d || Unrelated(x)
    requires forall x | x in d :: x in items
    ensures GetterComplete(items, service) <==> GetterComplete(d, service)
  {
    assert !Unrelated(DescriptorVariable(service));
    forall x: Item | x.AssignDescriptorsOnce?
      ensures !Unrelated(x) && !Unrelated(AssignDescriptors(x.name))
    {
    }
  }

  lemma DescriptorsAnswer(file: File, i: nat)
    requires i < |file.services| && DistinctServices(file.services)
    ensures Described(DescriptorItems(file), file.services[i].name)
            == if file.HasDescriptorMethods() then Some(DecimalNat(i)) else None
  {
    hide Each, Assigned, DecimalNat, AssignDescriptorsName;
    var service := file.services[i].name;
    var variables, assignments := Each(file.services, VariableItem, 0), Each(file.services, AssignmentItem, 0);
    InEach(file.services, VariableItem, 0, i, DescriptorVariable(service));
    forall x | x in variables
      ensures x.DescriptorVariable?
    {
      var j := FromElement(file.services, VariableItem, 0, x);
    }
    if file.HasDescriptorMethods() {
      var name := AssignDescriptorsName(file.name);
      var tail := [AssignDescriptorsOnce(name), Close("")];
      var head := [Open("")] + variables;
      AssignedInLoop(file.services, 0, i);
      NeverAssigned(tail, service);
      AssignedConcat([AssignDescriptors(name)], assignments, service);
      AssignedConcat([AssignDescriptors(name)] + assignments, tail, service);
      AssignedConcat(head, [AssignDescriptors(name)] + assignments + tail, service);
      assert AssignDescriptorsOnce(name) in DescriptorItems(file);
      assert AssignDescriptors(name) in DescriptorItems(file);
    }
  }

  /**
   Every service has a getter; with descriptor methods it answers the descriptor with the
   index of its own service in the file, and without them what it calls is not there.
   */
  lemma GettersAnswer(file: File, i: nat)
    requires i < |file.services| && DistinctServices(file.services)
    ensures Getter(file.services[i].name) in SourceItems(file)
    ensures Described(SourceItems(file), file.services[i].name)
            == if file.lite then None else Some(DecimalNat(i))
  {
    hide Each, Described, DescriptorItems, Parts, DecimalNat, SourceServiceItems;
    var prefix := PackagePrefix(file.package);
    ServiceUnrelated(prefix, file.services[i]);
    InEach(file.services, SourceServiceOf(prefix), 0, i, Getter(file.services[i].name));
    DescriptorsDecide(file, file.services[i].name);
    DescriptorsAnswer(file, i);
  }
}
