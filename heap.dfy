/**
 * The part of the JavaScript object model that property redirection works on:
 * objects with own data and accessor properties, one prototype edge per object,
 * and the [[Get]], [[Set]] and Object.defineProperty steps over them.
 *
 * An accessor installed by a redirection forwards the SAME property name to one
 * other object, so it is represented by that object's identity alone.
 */
module JsHeap {

  type ObjId = nat
  type Prop = string

  datatype Option<T> = None | Some(value: T)

  /** ECMAScript values, with integers in place of IEEE doubles. */
  datatype Value = Undefined | Null | Bool(b: bool) | Num(n: int) | Str(s: string) | Ref(id: ObjId)

  /** ToBoolean (section 7.1.2 of ECMA-262) yields false exactly for these values. */
  predicate Falsy(v: Value)
  {
    v == Undefined || v == Null || v == Bool(false) || v == Num(0) || v == Str("")
  }

  /** An own property: a data property, or an accessor whose getter and setter
      read and write the same-named property of `target`. */
  datatype Slot = Data(value: Value) | Accessor(target: ObjId, configurable: bool)

  datatype Heap = Heap(slots: map<ObjId, map<Prop, Slot>>, proto: map<ObjId, ObjId>)

  datatype ErrorKind = TypeError

  /** How a run of redirection steps ends. `Cycle` marks a step that would install an
      accessor closing a cycle of forwarding: such calls are outside the model. */
  datatype Status = Done | Thrown(error: ErrorKind) | Cycle

  datatype Run = Run(heap: Heap, status: Status)

  function Own(h: Heap, o: ObjId): map<Prop, Slot>
  {
    if o in h.slots then h.slots[o] else map[]
  }

  function SlotOf(h: Heap, o: ObjId, p: Prop): Option<Slot>
  {
    if p in Own(h, o) then Some(Own(h, o)[p]) else None
  }

  predicate IsAccessor(h: Heap, o: ObjId, p: Prop)
  {
    SlotOf(h, o, p).Some? && SlotOf(h, o, p).value.Accessor?
  }

  /** Replace (or create) the own slot `p` of `o`. */
  function Put(h: Heap, o: ObjId, p: Prop, s: Slot): Heap
  {
    Heap(h.slots[o := Own(h, o)[p := s]], h.proto)
  }

  /** The object a read of o[p] consults after `o`: the accessor's target, or the
      prototype when `o` has no own `p`. */
  function Next(h: Heap, o: ObjId, p: Prop): Option<ObjId>
  {
    match SlotOf(h, o, p)
    case Some(Data(_)) => None
    case Some(Accessor(t, _)) => Some(t)
    case None => if o in h.proto then Some(h.proto[o]) else None
  }

  /** The value a read of o[p] finds at `o` itself when it goes no further. */
  function Local(h: Heap, o: ObjId, p: Prop): Value
  {
    match SlotOf(h, o, p)
    case Some(Data(v)) => v
    case _ => Undefined
  }

  /** The walk a read of o[p] takes ends within n objects. */
  predicate Ends(h: Heap, o: ObjId, p: Prop, n: nat)
    decreases n
  {
    0 < n && (Next(h, o, p).None? || Ends(h, Next(h, o, p).value, p, n - 1))
  }

  ghost predicate Grounded(h: Heap, o: ObjId, p: Prop)
  {
    exists n :: Ends(h, o, p, n)
  }

  /** No read walk loops: every accessor/prototype chain ends. */
  ghost predicate Acyclic(h: Heap)
  {
    forall o, p :: Grounded(h, o, p)
  }

  /** The read walk from x for p passes through y within n objects. */
  predicate ReachesWithin(h: Heap, x: ObjId, p: Prop, y: ObjId, n: nat)
    decreases n
  {
    0 < n && (x == y || (Next(h, x, p).Some? && ReachesWithin(h, Next(h, x, p).value, p, y, n - 1)))
  }

  ghost predicate Reaches(h: Heap, x: ObjId, p: Prop, y: ObjId)
  {
    exists n :: ReachesWithin(h, x, p, y, n)
  }

  ghost function Fuel(h: Heap, o: ObjId, p: Prop): (n: nat)
    requires Grounded(h, o, p)
    ensures Ends(h, o, p, n)
  {
    var n :| Ends(h, o, p, n); n
  }

  /** [[Get]] of o[p]: an own data value, else through the getter, else through the prototype. */
  function GetWithin(h: Heap, o: ObjId, p: Prop, ghost n: nat): Value
    requires Ends(h, o, p, n)
    decreases n
  {
    match SlotOf(h, o, p)
    case Some(Data(v)) => v
    case Some(Accessor(t, _)) => GetWithin(h, t, p, n - 1)
    case None => if o in h.proto then GetWithin(h, h.proto[o], p, n - 1) else Undefined
  }

  /** The object whose own slot [[Set]] of o[p] writes: setters are followed, and the
      receiver at the end of them gets a data property. */
  function LandingWithin(h: Heap, o: ObjId, p: Prop, ghost n: nat): ObjId
    requires Ends(h, o, p, n)
    decreases n
  {
    match SlotOf(h, o, p)
    case Some(Accessor(t, _)) => LandingWithin(h, t, p, n - 1)
    case _ => o
  }

  /** [[Get]] of o[p] on a heap where the walk ends; the methods read through it. */
  function Get(h: Heap, o: ObjId, p: Prop): Value
    requires Grounded(h, o, p)
  {
    GetWithin(h, o, p, Fuel(h, o, p))
  }

  ghost function Landing(h: Heap, o: ObjId, p: Prop): ObjId
    requires Grounded(h, o, p)
  {
    LandingWithin(h, o, p, Fuel(h, o, p))
  }

  /** The assignment o[p] = v. */
  ghost function Set(h: Heap, o: ObjId, p: Prop, v: Value): Heap
    requires Grounded(h, o, p)
  {
    Put(h, Landing(h, o, p), p, Data(v))
  }

  /** Object.defineProperty(o, p, {get, set}) with a getter and setter forwarding to t[p]
      (sections 20.1.2.4 and 10.1.6.3 of ECMA-262). A non-configurable accessor cannot be
      redefined (None: TypeError); a property created here is non-configurable, an existing
      accessor keeps its configurability, and a data slot always counts as configurable. */
  function DefineProperty(h: Heap, o: ObjId, p: Prop, t: ObjId): Option<Heap>
  {
    match SlotOf(h, o, p)
    case Some(Accessor(_, false)) => None
    case s => Some(Put(h, o, p, Accessor(t, s.Some?)))
  }

  /** A fresh, empty object `m` whose prototype is `parent`, if any. */
  function Alloc(h: Heap, m: ObjId, parent: Option<ObjId>): Heap
  {
    Heap(h.slots[m := map[]], if parent.Some? then h.proto[m := parent.value] else h.proto)
  }

  /** Object.setPrototypeOf(x, parent) once the check against prototype cycles has passed. */
  function Reparent(h: Heap, x: ObjId, parent: ObjId): Heap
  {
    Heap(h.slots, h.proto[x := parent])
  }

  predicate ValueIn(h: Heap, v: Value)
  {
    v.Ref? ==> v.id in h.slots
  }

  predicate SlotIn(h: Heap, s: Slot)
  {
    match s
    case Data(v) => ValueIn(h, v)
    case Accessor(t, _) => t in h.slots
  }

  /** Every object the heap refers to is allocated. */
  ghost predicate Closed(h: Heap)
  {
    && (forall o, p :: o in h.slots && p in h.slots[o] ==> SlotIn(h, h.slots[o][p]))
    && (forall o :: o in h.proto ==> o in h.slots && h.proto[o] in h.slots)
  }

  // ---------------------------------------------------------------------------
  // Walks and fuel

  lemma {:induction false} EndsMono(h: Heap, o: ObjId, p: Prop, n: nat, m: nat)
    requires Ends(h, o, p, n) && n <= m
    ensures Ends(h, o, p, m)
    decreases n
  {
    if Next(h, o, p).Some? {
      EndsMono(h, Next(h, o, p).value, p, n - 1, m - 1);
    }
  }

  /** The outcome of a read or write does not depend on the fuel it was given. */
  lemma {:induction false} FuelIrrelevant(h: Heap, o: ObjId, p: Prop, n: nat, m: nat)
    requires Ends(h, o, p, n) && Ends(h, o, p, m)
    ensures GetWithin(h, o, p, n) == GetWithin(h, o, p, m)
    ensures LandingWithin(h, o, p, n) == LandingWithin(h, o, p, m)
    decreases n
  {
    if Next(h, o, p).Some? {
      FuelIrrelevant(h, Next(h, o, p).value, p, n - 1, m - 1);
    }
  }

  lemma GroundedAt(h: Heap, o: ObjId, p: Prop, n: nat)
    requires Ends(h, o, p, n)
    ensures Grounded(h, o, p)
    ensures Get(h, o, p) == GetWithin(h, o, p, n)
    ensures Landing(h, o, p) == LandingWithin(h, o, p, n)
  {
    FuelIrrelevant(h, o, p, n, Fuel(h, o, p));
  }

  /** One step of a read or a write, stated without fuel. */
  lemma Unfold(h: Heap, o: ObjId, p: Prop)
    requires Grounded(h, o, p)
    ensures Next(h, o, p).Some? ==> Grounded(h, Next(h, o, p).value, p)
    ensures Next(h, o, p).Some? ==> Get(h, o, p) == Get(h, Next(h, o, p).value, p)
    ensures Next(h, o, p).None? ==> Get(h, o, p) == Local(h, o, p)
    ensures IsAccessor(h, o, p) ==> Landing(h, o, p) == Landing(h, Next(h, o, p).value, p)
    ensures !IsAccessor(h, o, p) ==> Landing(h, o, p) == o
  {
    var n := Fuel(h, o, p);
    if Next(h, o, p).Some? {
      GroundedAt(h, Next(h, o, p).value, p, n - 1);
    }
  }

  /** A read walk from an allocated object stays among allocated objects. */
  lemma {:induction false} LandingIn(h: Heap, o: ObjId, p: Prop, n: nat)
    requires Closed(h) && o in h.slots && Ends(h, o, p, n)
    ensures LandingWithin(h, o, p, n) in h.slots
    ensures ValueIn(h, GetWithin(h, o, p, n))
    decreases n
  {
    if Next(h, o, p).Some? {
      LandingIn(h, Next(h, o, p).value, p, n - 1);
    } else if SlotOf(h, o, p).Some? {
      assert SlotIn(h, h.slots[o][p]);
    }
  }

  lemma {:induction false} LandingPlainWithin(h: Heap, o: ObjId, p: Prop, n: nat)
    requires Ends(h, o, p, n)
    ensures !IsAccessor(h, LandingWithin(h, o, p, n), p)
    decreases n
  {
    if IsAccessor(h, o, p) {
      LandingPlainWithin(h, Next(h, o, p).value, p, n - 1);
    }
  }

  /** A write never lands on an accessor: it ends where the setters end. */
  lemma LandingPlain(h: Heap, o: ObjId, p: Prop)
    requires Grounded(h, o, p)
    ensures !IsAccessor(h, Landing(h, o, p), p)
  {
    LandingPlainWithin(h, o, p, Fuel(h, o, p));
  }

  // ---------------------------------------------------------------------------
  // Writing a data slot

  /** Writing a data slot only cuts read walks short. */
  lemma {:induction false} PutDataEnds(h: Heap, r: ObjId, p: Prop, v: Value, x: ObjId, q: Prop, n: nat)
    requires Ends(h, x, q, n)
    ensures Ends(Put(h, r, p, Data(v)), x, q, n)
    decreases n
  {
    var h' := Put(h, r, p, Data(v));
    if !(x == r && q == p) && Next(h, x, q).Some? {
      assert Next(h', x, q) == Next(h, x, q);
      PutDataEnds(h, r, p, v, Next(h, x, q).value, q, n - 1);
    }
  }

  lemma PutDataAcyclic(h: Heap, r: ObjId, p: Prop, v: Value)
    requires Acyclic(h)
    ensures Acyclic(Put(h, r, p, Data(v)))
  {
    forall x, q ensures Grounded(Put(h, r, p, Data(v)), x, q) {
      PutDataEnds(h, r, p, v, x, q, Fuel(h, x, q));
    }
  }

  lemma SetAcyclic(h: Heap, o: ObjId, p: Prop, v: Value)
    requires Acyclic(h)
    ensures Acyclic(Set(h, o, p, v))
  {
    PutDataAcyclic(h, Landing(h, o, p), p, v);
  }

  lemma {:induction false} WriteThenReadWithin(h: Heap, o: ObjId, p: Prop, v: Value, n: nat)
    requires Ends(h, o, p, n)
    ensures Ends(Put(h, LandingWithin(h, o, p, n), p, Data(v)), o, p, n)
    ensures GetWithin(Put(h, LandingWithin(h, o, p, n), p, Data(v)), o, p, n) == v
    ensures LandingWithin(Put(h, LandingWithin(h, o, p, n), p, Data(v)), o, p, n) == LandingWithin(h, o, p, n)
    decreases n
  {
    var r := LandingWithin(h, o, p, n);
    var h' := Put(h, r, p, Data(v));
    if r != o {
      var t := Next(h, o, p).value;
      assert SlotOf(h', o, p) == SlotOf(h, o, p);
      WriteThenReadWithin(h, t, p, v, n - 1);
    }
  }

  /** After o[p] = v, reading o[p] yields v, and a later write lands on the same object. */
  lemma ReadAfterWrite(h: Heap, o: ObjId, p: Prop, v: Value)
    requires Acyclic(h)
    ensures Acyclic(Set(h, o, p, v))
    ensures Get(Set(h, o, p, v), o, p) == v
    ensures Landing(Set(h, o, p, v), o, p) == Landing(h, o, p)
  {
    SetAcyclic(h, o, p, v);
    var n := Fuel(h, o, p);
    WriteThenReadWithin(h, o, p, v, n);
    GroundedAt(Set(h, o, p, v), o, p, n);
  }

  // ---------------------------------------------------------------------------
  // Changing one slot off the walk, or of another property

  /** A slot change at an object the walk from x never visits leaves that walk alone. */
  lemma {:induction false} AvoidWithin(h: Heap, o: ObjId, p: Prop, s: Slot, x: ObjId, n: nat)
    requires Ends(h, x, p, n) && !ReachesWithin(h, x, p, o, n)
    ensures Ends(Put(h, o, p, s), x, p, n)
    ensures GetWithin(Put(h, o, p, s), x, p, n) == GetWithin(h, x, p, n)
    ensures LandingWithin(Put(h, o, p, s), x, p, n) == LandingWithin(h, x, p, n)
    decreases n
  {
    var h' := Put(h, o, p, s);
    assert SlotOf(h', x, p) == SlotOf(h, x, p);
    if Next(h, x, p).Some? {
      AvoidWithin(h, o, p, s, Next(h, x, p).value, n - 1);
    }
  }

  lemma Avoid(h: Heap, o: ObjId, p: Prop, s: Slot, x: ObjId)
    requires Grounded(h, x, p) && !Reaches(h, x, p, o)
    ensures Grounded(Put(h, o, p, s), x, p)
    ensures Get(Put(h, o, p, s), x, p) == Get(h, x, p)
    ensures Landing(Put(h, o, p, s), x, p) == Landing(h, x, p)
  {
    var n := Fuel(h, x, p);
    AvoidWithin(h, o, p, s, x, n);
    GroundedAt(Put(h, o, p, s), x, p, n);
  }

  /** A slot change for property p leaves every walk for another property alone. */
  lemma {:induction false} OtherPropWithin(h: Heap, o: ObjId, p: Prop, s: Slot, x: ObjId, q: Prop, n: nat)
    requires q != p && Ends(h, x, q, n)
    ensures Ends(Put(h, o, p, s), x, q, n)
    ensures GetWithin(Put(h, o, p, s), x, q, n) == GetWithin(h, x, q, n)
    ensures LandingWithin(Put(h, o, p, s), x, q, n) == LandingWithin(h, x, q, n)
    decreases n
  {
    var h' := Put(h, o, p, s);
    assert SlotOf(h', x, q) == SlotOf(h, x, q);
    if Next(h, x, q).Some? {
      OtherPropWithin(h, o, p, s, Next(h, x, q).value, q, n - 1);
    }
  }

  lemma OtherProp(h: Heap, o: ObjId, p: Prop, s: Slot, x: ObjId, q: Prop)
    requires q != p && Grounded(h, x, q)
    ensures Grounded(Put(h, o, p, s), x, q)
    ensures Get(Put(h, o, p, s), x, q) == Get(h, x, q)
    ensures Landing(Put(h, o, p, s), x, q) == Landing(h, x, q)
  {
    var n := Fuel(h, x, q);
    OtherPropWithin(h, o, p, s, x, q, n);
    GroundedAt(Put(h, o, p, s), x, q, n);
  }

  // ---------------------------------------------------------------------------
  // Installing an accessor

  lemma {:induction false} LinkEnds(h: Heap, o: ObjId, p: Prop, t: ObjId, c: bool, x: ObjId, n: nat, m: nat)
    requires Ends(h, x, p, n) && Ends(Put(h, o, p, Accessor(t, c)), t, p, m)
    ensures Ends(Put(h, o, p, Accessor(t, c)), x, p, n + m + 1)
    decreases n
  {
    var h' := Put(h, o, p, Accessor(t, c));
    if x == o {
      EndsMono(h', t, p, m, n + m);
    } else {
      assert SlotOf(h', x, p) == SlotOf(h, x, p);
      if Next(h, x, p).Some? {
        LinkEnds(h, o, p, t, c, Next(h, x, p).value, n - 1, m);
      }
    }
  }

  /** An accessor o[p] -> t[p] keeps the heap acyclic when the walk from t never reaches o. */
  lemma LinkAcyclic(h: Heap, o: ObjId, p: Prop, t: ObjId, c: bool)
    requires Acyclic(h) && !Reaches(h, t, p, o)
    ensures Acyclic(Put(h, o, p, Accessor(t, c)))
  {
    var h' := Put(h, o, p, Accessor(t, c));
    var m := Fuel(h, t, p);
    AvoidWithin(h, o, p, Accessor(t, c), t, m);
    forall x, q ensures Grounded(h', x, q) {
      if q == p {
        LinkEnds(h, o, p, t, c, x, Fuel(h, x, p), m);
      } else {
        OtherPropWithin(h, o, p, Accessor(t, c), x, q, Fuel(h, x, q));
      }
    }
  }

  /** The read walk from x shrinks when a slot becomes data, when another property
      changes, or when the changed object was off the walk. */
  lemma {:induction false} ReachesShrinkWithin(h: Heap, r: ObjId, p: Prop, s: Slot, x: ObjId, q: Prop, y: ObjId, n: nat)
    requires ReachesWithin(Put(h, r, p, s), x, q, y, n)
    requires s.Data? || q != p || !ReachesWithin(h, x, p, r, n)
    ensures ReachesWithin(h, x, q, y, n)
    decreases n
  {
    var h' := Put(h, r, p, s);
    if x != y {
      if x == r && q == p {
        assert false;
      }
      assert SlotOf(h', x, q) == SlotOf(h, x, q);
      ReachesShrinkWithin(h, r, p, s, Next(h, x, q).value, q, y, n - 1);
    }
  }

  lemma ReachesShrink(h: Heap, r: ObjId, p: Prop, s: Slot, x: ObjId, q: Prop, y: ObjId)
    requires Reaches(Put(h, r, p, s), x, q, y)
    requires s.Data? || q != p || !Reaches(h, x, p, r)
    ensures Reaches(h, x, q, y)
  {
    var n :| ReachesWithin(Put(h, r, p, s), x, q, y, n);
    ReachesShrinkWithin(h, r, p, s, x, q, y, n);
  }

  /** The object where a write lands is on the read walk. */
  lemma {:induction false} LandingReachedWithin(h: Heap, o: ObjId, p: Prop, n: nat)
    requires Ends(h, o, p, n)
    ensures ReachesWithin(h, o, p, LandingWithin(h, o, p, n), n)
    decreases n
  {
    if IsAccessor(h, o, p) {
      LandingReachedWithin(h, Next(h, o, p).value, p, n - 1);
    }
  }

  lemma LandingReached(h: Heap, o: ObjId, p: Prop)
    requires Grounded(h, o, p)
    ensures Reaches(h, o, p, Landing(h, o, p))
  {
    LandingReachedWithin(h, o, p, Fuel(h, o, p));
  }

  // ---------------------------------------------------------------------------
  // Allocation

  lemma {:induction false} AllocWithin(h: Heap, m: ObjId, parent: Option<ObjId>, x: ObjId, q: Prop, n: nat)
    requires Closed(h) && m !in h.slots && x != m && Ends(h, x, q, n)
    ensures Ends(Alloc(h, m, parent), x, q, n)
    ensures GetWithin(Alloc(h, m, parent), x, q, n) == GetWithin(h, x, q, n)
    ensures LandingWithin(Alloc(h, m, parent), x, q, n) == LandingWithin(h, x, q, n)
    decreases n
  {
    var h' := Alloc(h, m, parent);
    assert SlotOf(h', x, q) == SlotOf(h, x, q);
    assert Next(h', x, q) == Next(h, x, q) by {
      if x in h.proto { assert x in h.slots; }
    }
    if Next(h, x, q).Some? {
      var y := Next(h, x, q).value;
      assert y in h.slots by {
        if SlotOf(h, x, q).Some? { assert SlotIn(h, h.slots[x][q]); }
      }
      AllocWithin(h, m, parent, y, q, n - 1);
    }
  }

  /** A fresh object changes no existing read, and reads of props it lacks go to its parent. */
  lemma AllocFacts(h: Heap, m: ObjId, parent: Option<ObjId>)
    requires Acyclic(h) && Closed(h) && m !in h.slots
    requires parent.Some? ==> parent.value in h.slots
    ensures Acyclic(Alloc(h, m, parent)) && Closed(Alloc(h, m, parent))
    ensures forall x, q :: x != m ==> Get(Alloc(h, m, parent), x, q) == Get(h, x, q)
    ensures forall x, q :: x != m ==> Landing(Alloc(h, m, parent), x, q) == Landing(h, x, q)
    ensures forall q :: Get(Alloc(h, m, parent), m, q) == if parent.Some? then Get(h, parent.value, q) else Undefined
  {
    var h' := Alloc(h, m, parent);
    forall x, q | x != m
      ensures Grounded(h', x, q) && Get(h', x, q) == Get(h, x, q) && Landing(h', x, q) == Landing(h, x, q)
    {
      var n := Fuel(h, x, q);
      AllocWithin(h, m, parent, x, q, n);
      GroundedAt(h', x, q, n);
    }
    forall q ensures Grounded(h', m, q) && Get(h', m, q) == if parent.Some? then Get(h, parent.value, q) else Undefined {
      if parent.Some? {
        var c := parent.value;
        assert c != m;
        var n := Fuel(h, c, q);
        AllocWithin(h, m, parent, c, q, n);
        assert Ends(h', m, q, n + 1);
        GroundedAt(h', c, q, n);
        GroundedAt(h', m, q, n + 1);
      } else {
        assert Ends(h', m, q, 1);
        GroundedAt(h', m, q, 1);
      }
    }
  }
}
