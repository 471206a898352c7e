/**
 * The JavaScript heap as a mutable object: every redirection and every container
 * operation reads and rewrites property slots of objects held here.
 */
module ObjectStore {
  import opened JsHeap

  class Store {
    var slots: map<ObjId, map<Prop, Slot>>
    var proto: map<ObjId, ObjId>
    /** Identities from `next` upward have not been handed out yet. */
    var next: ObjId

    function View(): Heap
      reads this
    {
      Heap(slots, proto)
    }

    ghost predicate Valid()
      reads this
    {
      && Acyclic(View())
      && Closed(View())
      && (forall o :: o in slots ==> o < next)
    }

    constructor ()
      ensures Valid() && View() == Heap(map[], map[]) && next == 0
    {
      slots, proto, next := map[], map[], 0;
      new;
      forall o, p ensures Grounded(View(), o, p) {
        assert Ends(View(), o, p, 1);
      }
    }

    lemma ReadIn(o: ObjId, p: Prop)
      requires Valid() && o in slots
      ensures ValueIn(View(), Get(View(), o, p))
      ensures Landing(View(), o, p) in slots
    {
      LandingIn(View(), o, p, Fuel(View(), o, p));
    }

    /** The assignment o[p] = v. */
    method Write(o: ObjId, p: Prop, v: Value)
      requires Valid() && o in slots && ValueIn(View(), v)
      modifies this
      ensures Valid() && next == old(next) && slots.Keys == old(slots.Keys)
      ensures View() == Set(old(View()), o, p, v)
    {
      ghost var h := View();
      ReadIn(o, p);
      var r := LandingWithin(View(), o, p, Fuel(View(), o, p));
      slots := slots[r := Own(View(), r)[p := Data(v)]];
      SetAcyclic(h, o, p, v);
    }

    /** Object.defineProperty(o, p, accessor forwarding to t[p]). */
    method Define(o: ObjId, p: Prop, t: ObjId) returns (status: Status)
      requires Valid() && o in slots && t in slots
      requires DefineProperty(View(), o, p, t).Some? ==> !Reaches(View(), t, p, o)
      modifies this
      ensures Valid() && next == old(next) && slots.Keys == old(slots.Keys)
      ensures DefineProperty(old(View()), o, p, t).None? ==> status == Thrown(TypeError) && View() == old(View())
      ensures DefineProperty(old(View()), o, p, t).Some? ==> status == Done && View() == DefineProperty(old(View()), o, p, t).value
    {
      ghost var h := View();
      var own := if o in slots then slots[o] else map[];
      if p in own && own[p].Accessor? && !own[p].configurable {
        status := Thrown(TypeError);
      } else {
        slots := slots[o := own[p := Accessor(t, p in own)]];
        status := Done;
        LinkAcyclic(h, o, p, t, p in own);
      }
    }

    /** Object.setPrototypeOf(x, parent), for a change that keeps every read walk finite. */
    method SetPrototype(x: ObjId, parent: ObjId)
      requires Valid() && x in slots && parent in slots
      requires Acyclic(Reparent(View(), x, parent))
      modifies this
      ensures Valid() && next == old(next) && slots == old(slots)
      ensures View() == Reparent(old(View()), x, parent)
    {
      proto := proto[x := parent];
    }

    /** A fresh empty object whose prototype is `parent`, if any. */
    method Allocate(parent: Option<ObjId>) returns (id: ObjId)
      requires Valid() && (parent.Some? ==> parent.value in slots)
      modifies this
      ensures Valid() && id == old(next) && next == old(next) + 1
      ensures id !in old(slots) && slots.Keys == old(slots.Keys) + {id}
      ensures View() == Alloc(old(View()), id, parent)
    {
      ghost var h := View();
      id := next;
      slots := slots[id := map[]];
      if parent.Some? {
        proto := proto[id := parent.value];
      }
      next := next + 1;
      AllocFacts(h, id, parent);
    }
  }
}
