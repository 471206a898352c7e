/**
 * redirectPropsTo: for every (origin, prop) pair, origins outer and props inner,
 * optionally seed target[prop] from origin[prop], then turn origin[prop] into an
 * accessor whose getter and setter forward to target[prop].
 */
module RedirectProps {
  import opened JsHeap
  import opened ObjectStore

  /** An argument given either as one item or as an array of items. */
  datatype Arg<T> = One(item: T) | Many(items: seq<T>)

  /** The Array.isArray dispatch: a single item is treated as a one-element array. */
  function Items<T>(a: Arg<T>): seq<T>
  {
    match a
    case One(x) => [x]
    case Many(xs) => xs
  }

  function Row<A>(x: A, ps: seq<Prop>): seq<(A, Prop)>
    decreases |ps|
  {
    if ps == [] then [] else [(x, ps[0])] + Row(x, ps[1..])
  }

  /** The (item, prop) pairs in processing order: items outer, props inner. */
  function Pairs<A>(xs: seq<A>, ps: seq<Prop>): seq<(A, Prop)>
    decreases |xs|
  {
    if xs == [] then [] else Row(xs[0], ps) + Pairs(xs[1..], ps)
  }

  /** The value target[prop] holds after the seeding step, given its value `cur`
      and the origin's value `src` beforehand. */
  function SeedValue(cur: Value, src: Value, copy: bool, hard: bool): Value
  {
    if copy && (hard || Falsy(cur)) then src else cur
  }

  /** The seeding step of redirectProp: `target[prop] = origin[prop]` when asked to. */
  ghost function Seeded(h: Heap, t: ObjId, o: ObjId, p: Prop, copy: bool, hard: bool): (r: Heap)
    requires Acyclic(h)
    ensures Acyclic(r)
  {
    if copy && (hard || Falsy(Get(h, t, p))) then
      SetAcyclic(h, t, p, Get(h, o, p));
      Set(h, t, p, Get(h, o, p))
    else
      h
  }

  /** redirectProp(origin, prop) for target `t`. */
  ghost function RedirectStep(h: Heap, t: ObjId, o: ObjId, p: Prop, copy: bool, hard: bool): (r: Run)
    requires Acyclic(h)
    ensures r.status != Cycle ==> Acyclic(r.heap)
  {
    var seeded := Seeded(h, t, o, p, copy, hard);
    match DefineProperty(seeded, o, p, t)
    case None => Run(seeded, Thrown(TypeError))
    case Some(linked) =>
      if Reaches(seeded, t, p, o) then
        Run(seeded, Cycle)
      else
        LinkAcyclic(seeded, o, p, t, SlotOf(seeded, o, p).Some?);
        Run(linked, Done)
  }

  /** The steps for `pairs` in order; the first exception ends the run. */
  ghost function RedirectAll(h: Heap, t: ObjId, pairs: seq<(ObjId, Prop)>, copy: bool, hard: bool): (r: Run)
    requires Acyclic(h)
    ensures r.status != Cycle ==> Acyclic(r.heap)
    decreases |pairs|
  {
    if pairs == [] then
      Run(h, Done)
    else
      var step := RedirectStep(h, t, pairs[0].0, pairs[0].1, copy, hard);
      if step.status == Done then RedirectAll(step.heap, t, pairs[1..], copy, hard) else step
  }

  lemma RedirectAllCons(h: Heap, t: ObjId, x: (ObjId, Prop), rest: seq<(ObjId, Prop)>, copy: bool, hard: bool)
    requires Acyclic(h)
    ensures var step := RedirectStep(h, t, x.0, x.1, copy, hard);
      RedirectAll(h, t, [x] + rest, copy, hard)
      == if step.status == Done then RedirectAll(step.heap, t, rest, copy, hard) else step
  {
  }

  /** Running two lists of pairs one after the other is running their concatenation. */
  lemma {:induction false} RedirectAllAppend(h: Heap, t: ObjId, a: seq<(ObjId, Prop)>, b: seq<(ObjId, Prop)>, copy: bool, hard: bool)
    requires Acyclic(h)
    ensures var r := RedirectAll(h, t, a, copy, hard);
      RedirectAll(h, t, a + b, copy, hard) == if r.status == Done then RedirectAll(r.heap, t, b, copy, hard) else r
    decreases |a|
  {
    if a == [] {
      assert a + b == b;
    } else {
      assert (a + b)[1..] == a[1..] + b;
      RedirectAllCons(h, t, a[0], a[1..] + b, copy, hard);
      assert a == [a[0]] + a[1..];
      var step := RedirectStep(h, t, a[0].0, a[0].1, copy, hard);
      if step.status == Done {
        RedirectAllAppend(step.heap, t, a[1..], b, copy, hard);
      }
    }
  }

  method RedirectProp(store: Store, target: ObjId, origin: ObjId, prop: Prop, copyProps: bool, hardCopy: bool)
    returns (status: Status)
    requires store.Valid() && target in store.slots && origin in store.slots
    requires RedirectStep(store.View(), target, origin, prop, copyProps, hardCopy).status != Cycle
    modifies store
    ensures store.Valid() && store.next == old(store.next) && store.slots.Keys == old(store.slots.Keys)
    ensures store.View() == RedirectStep(old(store.View()), target, origin, prop, copyProps, hardCopy).heap
    ensures status == RedirectStep(old(store.View()), target, origin, prop, copyProps, hardCopy).status
  {
    if copyProps {
      if hardCopy {
        store.ReadIn(origin, prop);
        store.Write(target, prop, Get(store.View(), origin, prop));
      } else if Falsy(Get(store.View(), target, prop)) {
        store.ReadIn(origin, prop);
        store.Write(target, prop, Get(store.View(), origin, prop));
      }
    }
    status := store.Define(origin, prop, target);
  }

  /** The inner forEach over props for one origin. */
  method RedirectRow(store: Store, target: ObjId, origin: ObjId, ps: seq<Prop>, copyProps: bool, hardCopy: bool)
    returns (status: Status)
    requires store.Valid() && target in store.slots && origin in store.slots
    requires RedirectAll(store.View(), target, Row(origin, ps), copyProps, hardCopy).status != Cycle
    modifies store
    ensures store.Valid() && store.next == old(store.next) && store.slots.Keys == old(store.slots.Keys)
    ensures store.View() == RedirectAll(old(store.View()), target, Row(origin, ps), copyProps, hardCopy).heap
    ensures status == RedirectAll(old(store.View()), target, Row(origin, ps), copyProps, hardCopy).status
  {
    ghost var h0 := store.View();
    status := Done;
    var j := 0;
    assert ps[0..] == ps;
    while j < |ps|
      invariant 0 <= j <= |ps|
      invariant store.Valid() && store.next == old(store.next) && store.slots.Keys == old(store.slots.Keys)
      invariant status == Done
      invariant RedirectAll(h0, target, Row(origin, ps), copyProps, hardCopy)
             == RedirectAll(store.View(), target, Row(origin, ps[j..]), copyProps, hardCopy)
    {
      assert ps[j..][1..] == ps[j + 1..];
      RedirectAllCons(store.View(), target, (origin, ps[j]), Row(origin, ps[j + 1..]), copyProps, hardCopy);
      status := RedirectProp(store, target, origin, ps[j], copyProps, hardCopy);
      if status != Done {
        return;
      }
      j := j + 1;
    }
    assert ps[j..] == [];
  }

  method RedirectPropsTo(store: Store, targetObj: ObjId, originObjs: Arg<ObjId>, props: Arg<Prop>,
                         copyProps: bool := true, hardCopy: bool := false)
    returns (status: Status)
    requires store.Valid() && targetObj in store.slots
    requires forall o <- Items(originObjs) :: o in store.slots
    requires RedirectAll(store.View(), targetObj, Pairs(Items(originObjs), Items(props)), copyProps, hardCopy).status != Cycle
    modifies store
    ensures store.Valid() && store.next == old(store.next) && store.slots.Keys == old(store.slots.Keys)
    ensures store.View() == RedirectAll(old(store.View()), targetObj, Pairs(Items(originObjs), Items(props)), copyProps, hardCopy).heap
    ensures status == RedirectAll(old(store.View()), targetObj, Pairs(Items(originObjs), Items(props)), copyProps, hardCopy).status
  {
    var origins := Items(originObjs);
    var ps := Items(props);
    ghost var h0 := store.View();
    status := Done;
    var i := 0;
    while i < |origins|
      invariant 0 <= i <= |origins|
      invariant store.Valid() && store.next == old(store.next) && store.slots.Keys == old(store.slots.Keys)
      invariant status == Done
      invariant RedirectAll(h0, targetObj, Pairs(origins, ps), copyProps, hardCopy)
             == RedirectAll(store.View(), targetObj, Pairs(origins[i..], ps), copyProps, hardCopy)
    {
      assert origins[i..][1..] == origins[i + 1..];
      RedirectAllAppend(store.View(), targetObj, Row(origins[i], ps), Pairs(origins[i + 1..], ps), copyProps, hardCopy);
      status := RedirectRow(store, targetObj, origins[i], ps, copyProps, hardCopy);
      if status != Done {
        return;
      }
      i := i + 1;
    }
    assert origins[i..] == [];
  }
}
