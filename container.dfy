/**
 * ClassContainer: an object that holds instances of other classes under keys, makes
 * itself the prototype of their class prototypes, and links chosen properties of those
 * instances so that reads and writes of them go to the container's own property.
 */
module Container {
  import opened JsHeap
  import opened ObjectStore
  import opened RedirectProps

  /** Object.assign(o, params): o[k] = v for each (k, v) in order. */
  ghost function AssignAll(h: Heap, o: ObjId, params: seq<(Prop, Value)>): (r: Heap)
    requires Acyclic(h)
    ensures Acyclic(r) && r.proto == h.proto
    decreases |params|
  {
    if params == [] then
      h
    else
      SetAcyclic(h, o, params[0].0, params[0].1);
      AssignAll(Set(h, o, params[0].0, params[0].1), o, params[1..])
  }

  /** `this[prop] = this[key][prop]`: reading a prop of undefined or null throws, and any
      other primitive member is taken to have no such prop. */
  ghost function SeedFromMember(h: Heap, c: ObjId, key: Prop, p: Prop): (r: Run)
    requires Acyclic(h)
    ensures Acyclic(r.heap) && r.heap.proto == h.proto && r.status != Cycle
  {
    match Get(h, c, key)
    case Undefined => Run(h, Thrown(TypeError))
    case Null => Run(h, Thrown(TypeError))
    case Ref(m) =>
      SetAcyclic(h, c, p, Get(h, m, p));
      Run(Set(h, c, p, Get(h, m, p)), Done)
    case _ =>
      SetAcyclic(h, c, p, Undefined);
      Run(Set(h, c, p, Undefined), Done)
  }

  /** One (key, prop) iteration of linkPropsOf on container `c`: seed c[prop] from the
      member when overriding or when c[prop] is falsy, then read `this[key]` again and make
      its prop an accessor forwarding to c[prop]. */
  ghost function LinkStep(h: Heap, c: ObjId, key: Prop, p: Prop, ov: bool): (r: Run)
    requires Acyclic(h)
    ensures r.status != Cycle ==> Acyclic(r.heap)
    ensures r.heap.proto == h.proto
  {
    var seed := if ov || Falsy(Get(h, c, p)) then SeedFromMember(h, c, key, p) else Run(h, Done);
    if seed.status != Done then
      seed
    else
      var h1 := seed.heap;
      match Get(h1, c, key)
      case Ref(m) =>
        (match DefineProperty(h1, m, p, c)
         case None => Run(h1, Thrown(TypeError))
         case Some(linked) =>
           if Reaches(h1, c, p, m) then
             Run(h1, Cycle)
           else
             LinkAcyclic(h1, m, p, c, SlotOf(h1, m, p).Some?);
             Run(linked, Done))
      case _ => Run(h1, Thrown(TypeError))
  }

  /** linkPropsOf over (key, prop) pairs in order; the first exception ends the run. */
  ghost function LinkAll(h: Heap, c: ObjId, pairs: seq<(Prop, Prop)>, ov: bool): (r: Run)
    requires Acyclic(h)
    ensures r.status != Cycle ==> Acyclic(r.heap)
    ensures r.heap.proto == h.proto
    decreases |pairs|
  {
    if pairs == [] then
      Run(h, Done)
    else
      var step := LinkStep(h, c, pairs[0].0, pairs[0].1, ov);
      if step.status == Done then LinkAll(step.heap, c, pairs[1..], ov) else step
  }

  lemma LinkAllCons(h: Heap, c: ObjId, x: (Prop, Prop), rest: seq<(Prop, Prop)>, ov: bool)
    requires Acyclic(h)
    ensures var step := LinkStep(h, c, x.0, x.1, ov);
      LinkAll(h, c, [x] + rest, ov) == if step.status == Done then LinkAll(step.heap, c, rest, ov) else step
  {
  }

  lemma {:induction false} LinkAllAppend(h: Heap, c: ObjId, a: seq<(Prop, Prop)>, b: seq<(Prop, Prop)>, ov: bool)
    requires Acyclic(h)
    ensures var r := LinkAll(h, c, a, ov);
      LinkAll(h, c, a + b, ov) == if r.status == Done then LinkAll(r.heap, c, b, ov) else r
    decreases |a|
  {
    if a == [] {
      assert a + b == b;
    } else {
      assert (a + b)[1..] == a[1..] + b;
      LinkAllCons(h, c, a[0], a[1..] + b, ov);
      assert a == [a[0]] + a[1..];
      var step := LinkStep(h, c, a[0].0, a[0].1, ov);
      if step.status == Done {
        LinkAllAppend(step.heap, c, a[1..], b, ov);
      }
    }
  }

  /** containClass on container `c`, with the class prototype `cp`, the field assignments
      the class constructor makes, and `m` the identity the new instance receives. */
  ghost function Contain(h: Heap, c: ObjId, key: Prop, cp: ObjId, fields: seq<(Prop, Value)>, m: ObjId,
                         linkProps: Option<seq<Prop>>, ov: bool): (r: Run)
    requires Acyclic(h) && Closed(h) && c in h.slots && cp in h.slots && m !in h.slots
    ensures r.status != Cycle ==> Acyclic(r.heap)
  {
    if cp == c then
      Run(h, Thrown(TypeError))
    else
      var h1 := Reparent(h, cp, c);
      if !Acyclic(h1) then
        Run(h1, Cycle)
      else
        AllocFacts(h1, m, Some(cp));
        var h2 := AssignAll(Alloc(h1, m, Some(cp)), m, fields);
        SetAcyclic(h2, c, key, Ref(m));
        var h3 := Set(h2, c, key, Ref(m));
        match linkProps
        case None => Run(h3, Done)
        case Some(ps) => LinkAll(h3, c, Pairs([key], ps), ov)
  }

  predicate ValuesIn(h: Heap, params: seq<(Prop, Value)>)
  {
    forall i :: 0 <= i < |params| ==> ValueIn(h, params[i].1)
  }

  /** Object.assign(o, params) on the store. */
  method AssignEach(store: Store, o: ObjId, params: seq<(Prop, Value)>)
    requires store.Valid() && o in store.slots && ValuesIn(store.View(), params)
    modifies store
    ensures store.Valid() && store.next == old(store.next) && store.slots.Keys == old(store.slots.Keys)
    ensures store.View() == AssignAll(old(store.View()), o, params)
  {
    ghost var h0 := store.View();
    var i := 0;
    assert params[0..] == params;
    while i < |params|
      invariant 0 <= i <= |params|
      invariant store.Valid() && store.next == old(store.next) && store.slots.Keys == old(store.slots.Keys)
      invariant ValuesIn(store.View(), params)
      invariant AssignAll(h0, o, params) == AssignAll(store.View(), o, params[i..])
    {
      assert params[i..][1..] == params[i + 1..];
      store.Write(o, params[i].0, params[i].1);
      i := i + 1;
    }
    assert params[i..] == [];
  }

  class ClassContainer {
    const store: Store
    /** The container object itself (`this` in the source). */
    const self: ObjId

    /** The container lives in the store and has no prototype edge of its own: the
        ClassContainer.prototype it inherits holds only these methods. */
    ghost predicate Valid()
      reads store
    {
      store.Valid() && self in store.slots && self !in store.proto
    }

    constructor (store: Store, params: seq<(Prop, Value)>)
      requires store.Valid() && ValuesIn(store.View(), params)
      modifies store
      ensures Valid() && this.store == store && self == old(store.next)
      ensures store.next == old(store.next) + 1
      ensures Acyclic(Alloc(old(store.View()), self, None))
      ensures store.View() == AssignAll(Alloc(old(store.View()), self, None), self, params)
    {
      this.store := store;
      var id := store.Allocate(None);
      self := id;
      new;
      SetProps(params);
    }

    /** setProps(params): Object.assign(this, params). */
    method SetProps(params: seq<(Prop, Value)>)
      requires Valid() && ValuesIn(store.View(), params)
      modifies store
      ensures Valid() && store.next == old(store.next) && store.slots.Keys == old(store.slots.Keys)
      ensures store.View() == AssignAll(old(store.View()), self, params)
    {
      AssignEach(store, self, params);
    }

    /** One (key, prop) iteration of linkPropsOf. */
    method LinkProp(key: Prop, prop: Prop, propsOverride: bool) returns (status: Status)
      requires Valid() && LinkStep(store.View(), self, key, prop, propsOverride).status != Cycle
      modifies store
      ensures Valid() && store.next == old(store.next) && store.slots.Keys == old(store.slots.Keys)
      ensures store.View() == LinkStep(old(store.View()), self, key, prop, propsOverride).heap
      ensures status == LinkStep(old(store.View()), self, key, prop, propsOverride).status
    {
      if propsOverride || Falsy(Get(store.View(), self, prop)) {
        var member := Get(store.View(), self, key);
        store.ReadIn(self, key);
        match member {
          case Undefined => return Thrown(TypeError);
          case Null => return Thrown(TypeError);
          case Ref(m) =>
            store.ReadIn(m, prop);
            store.Write(self, prop, Get(store.View(), m, prop));
          case _ =>
            store.Write(self, prop, Undefined);
        }
      }
      var member := Get(store.View(), self, key);
      store.ReadIn(self, key);
      if !member.Ref? {
        return Thrown(TypeError);
      }
      status := store.Define(member.id, prop, self);
    }

    /** The inner forEach over props for one key. */
    method LinkRow(key: Prop, props: seq<Prop>, propsOverride: bool) returns (status: Status)
      requires Valid() && LinkAll(store.View(), self, Row(key, props), propsOverride).status != Cycle
      modifies store
      ensures Valid() && store.next == old(store.next) && store.slots.Keys == old(store.slots.Keys)
      ensures store.View() == LinkAll(old(store.View()), self, Row(key, props), propsOverride).heap
      ensures status == LinkAll(old(store.View()), self, Row(key, props), propsOverride).status
    {
      ghost var h0 := store.View();
      status := Done;
      var j := 0;
      assert props[0..] == props;
      while j < |props|
        invariant 0 <= j <= |props|
        invariant Valid() && store.next == old(store.next) && store.slots.Keys == old(store.slots.Keys)
        invariant status == Done
        invariant LinkAll(h0, self, Row(key, props), propsOverride)
               == LinkAll(store.View(), self, Row(key, props[j..]), propsOverride)
      {
        assert props[j..][1..] == props[j + 1..];
        LinkAllCons(store.View(), self, (key, props[j]), Row(key, props[j + 1..]), propsOverride);
        status := LinkProp(key, props[j], propsOverride);
        if status != Done {
          return;
        }
        j := j + 1;
      }
      assert props[j..] == [];
    }

    /** linkPropsOf(keys, props, propsOverride): keys outer, props inner. */
    method LinkPropsOf(keys: seq<Prop>, props: seq<Prop>, propsOverride: bool := false) returns (status: Status)
      requires Valid() && LinkAll(store.View(), self, Pairs(keys, props), propsOverride).status != Cycle
      modifies store
      ensures Valid() && store.next == old(store.next) && store.slots.Keys == old(store.slots.Keys)
      ensures store.View() == LinkAll(old(store.View()), self, Pairs(keys, props), propsOverride).heap
      ensures status == LinkAll(old(store.View()), self, Pairs(keys, props), propsOverride).status
    {
      ghost var h0 := store.View();
      status := Done;
      var i := 0;
      while i < |keys|
        invariant 0 <= i <= |keys|
        invariant Valid() && store.next == old(store.next) && store.slots.Keys == old(store.slots.Keys)
        invariant status == Done
        invariant LinkAll(h0, self, Pairs(keys, props), propsOverride)
               == LinkAll(store.View(), self, Pairs(keys[i..], props), propsOverride)
      {
        assert keys[i..][1..] == keys[i + 1..];
        LinkAllAppend(store.View(), self, Row(keys[i], props), Pairs(keys[i + 1..], props), propsOverride);
        status := LinkRow(keys[i], props, propsOverride);
        if status != Done {
          return;
        }
        i := i + 1;
      }
      assert keys[i..] == [];
    }

    /** containClass({key, className, params, linkProps, linkPropsOverride}), with the
        class given by its prototype object `classProto` and its constructor by the field
        assignments it makes on the new instance. Returns the instance's identity. */
    method ContainClass(key: Prop, classProto: ObjId, fields: seq<(Prop, Value)>,
                        linkProps: Option<seq<Prop>>, linkPropsOverride: bool)
      returns (status: Status, member: ObjId)
      requires Valid() && classProto in store.slots && ValuesIn(store.View(), fields)
      requires Contain(store.View(), self, key, classProto, fields, store.next, linkProps, linkPropsOverride).status != Cycle
      modifies store
      ensures Valid() && member == old(store.next) && member !in old(store.slots)
      ensures classProto == self ==> store.next == old(store.next) && store.slots.Keys == old(store.slots.Keys)
      ensures classProto != self ==> store.next == old(store.next) + 1 && store.slots.Keys == old(store.slots.Keys) + {member}
      ensures store.View() == Contain(old(store.View()), self, key, classProto, fields, member, linkProps, linkPropsOverride).heap
      ensures status == Contain(old(store.View()), self, key, classProto, fields, member, linkProps, linkPropsOverride).status
    {
      member := store.next;
      if classProto == self {
        return Thrown(TypeError), member;
      }
      store.SetPrototype(classProto, self);
      member := store.Allocate(Some(classProto));
      AssignEach(store, member, fields);
      store.Write(self, key, Ref(member));
      match linkProps {
        case None => status := Done;
        case Some(ps) => status := LinkPropsOf([key], ps, linkPropsOverride);
      }
    }
  }
}
