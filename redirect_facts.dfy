/**
 * What a run of redirectPropsTo promises: each origin property ends up forwarding to
 * the target, reads and writes through it alias the target's property, the target is
 * seeded according to copyProps / hardCopy, only the named slots change, and the
 * pairs are processed origins outer, props inner.
 */
module RedirectFacts {
  import opened JsHeap
  import opened RedirectProps

  /** o[p] is an accessor forwarding to t[p]. */
  predicate LinkedTo(h: Heap, o: ObjId, p: Prop, t: ObjId)
  {
    SlotOf(h, o, p).Some? && SlotOf(h, o, p).value.Accessor? && SlotOf(h, o, p).value.target == t
  }

  /** The props named by a list of pairs. */
  function PropsOf(pairs: seq<(ObjId, Prop)>): set<Prop>
    decreases |pairs|
  {
    if pairs == [] then {} else {pairs[0].1} + PropsOf(pairs[1..])
  }

  // ---------------------------------------------------------------------------
  // Forwarding

  /** Once origin[prop] forwards to target[prop], both read the same value, a write
      through either lands on the same object, and the written value is seen by both. */
  lemma LinkedAliases(h: Heap, o: ObjId, p: Prop, t: ObjId, v: Value)
    requires Acyclic(h) && LinkedTo(h, o, p, t)
    ensures Get(h, o, p) == Get(h, t, p)
    ensures Set(h, o, p, v) == Set(h, t, p, v)
    ensures Acyclic(Set(h, o, p, v))
    ensures Get(Set(h, o, p, v), o, p) == v && Get(Set(h, o, p, v), t, p) == v
  {
    Unfold(h, o, p);
    ReadAfterWrite(h, t, p, v);
    ReadAfterWrite(h, o, p, v);
  }

  /** A later plain assignment never undoes a forwarding: a write ends on a slot that is
      not an accessor, so every installed accessor stays in place. */
  lemma LinkSurvivesWrite(h: Heap, x: ObjId, q: Prop, t: ObjId, o: ObjId, p: Prop, v: Value)
    requires Acyclic(h) && LinkedTo(h, x, q, t)
    ensures LinkedTo(Set(h, o, p, v), x, q, t)
  {
    LandingPlain(h, o, p);
  }

  // ---------------------------------------------------------------------------
  // One redirectProp step

  /** The seeding write lands on the object a write of target[prop] reaches, and on no
      accessor; the link then replaces origin[prop] alone. */
  lemma StepFrame(h: Heap, t: ObjId, o: ObjId, p: Prop, copy: bool, hard: bool)
    requires Acyclic(h)
    ensures var r := RedirectStep(h, t, o, p, copy, hard).heap;
      && r.proto == h.proto
      && forall x, q :: (x, q) != (o, p) && !(copy && q == p && x == Landing(h, t, p))
           ==> SlotOf(r, x, q) == SlotOf(h, x, q)
    ensures forall x :: IsAccessor(h, x, p) ==> SlotOf(Seeded(h, t, o, p, copy, hard), x, p) == SlotOf(h, x, p)
  {
    LandingPlain(h, t, p);
  }

  /** redirectProp throws exactly when origin[prop] is a non-configurable accessor
      already; target[prop] is seeded either way, and on success origin[prop] forwards
      to target[prop]. */
  lemma StepSeeds(h: Heap, t: ObjId, o: ObjId, p: Prop, copy: bool, hard: bool)
    requires Acyclic(h)
    requires RedirectStep(h, t, o, p, copy, hard).status != Cycle
    ensures var r := RedirectStep(h, t, o, p, copy, hard);
      && Get(r.heap, t, p) == SeedValue(Get(h, t, p), Get(h, o, p), copy, hard)
      && (r.status == Thrown(TypeError) <==> IsAccessor(h, o, p) && !SlotOf(h, o, p).value.configurable)
      && (r.status == Done ==> LinkedTo(r.heap, o, p, t) && Get(r.heap, o, p) == Get(r.heap, t, p))
  {
    var seeded := Seeded(h, t, o, p, copy, hard);
    if copy && (hard || Falsy(Get(h, t, p))) {
      ReadAfterWrite(h, t, p, Get(h, o, p));
    }
    StepFrame(h, t, o, p, copy, hard);
    LandingPlain(h, t, p);
    assert IsAccessor(seeded, o, p) <==> IsAccessor(h, o, p);
    var r := RedirectStep(h, t, o, p, copy, hard);
    if r.status == Done {
      Avoid(seeded, o, p, Accessor(t, SlotOf(seeded, o, p).Some?), t);
      LinkedAliases(r.heap, o, p, t, Undefined);
    }
  }

  /** A step leaves the object a write of target[q] reaches where it was. */
  lemma StepKeepsLanding(h: Heap, t: ObjId, o: ObjId, p: Prop, copy: bool, hard: bool, q: Prop)
    requires Acyclic(h)
    requires RedirectStep(h, t, o, p, copy, hard).status != Cycle
    ensures Landing(RedirectStep(h, t, o, p, copy, hard).heap, t, q) == Landing(h, t, q)
  {
    var seeded := Seeded(h, t, o, p, copy, hard);
    assert Landing(seeded, t, q) == Landing(h, t, q) by {
      if copy && (hard || Falsy(Get(h, t, p))) {
        if q == p {
          ReadAfterWrite(h, t, p, Get(h, o, p));
        } else {
          OtherProp(h, Landing(h, t, p), p, Data(Get(h, o, p)), t, q);
        }
      }
    }
    var r := RedirectStep(h, t, o, p, copy, hard);
    if r.status == Done {
      var s := Accessor(t, SlotOf(seeded, o, p).Some?);
      if q == p {
        Avoid(seeded, o, p, s, t);
      } else {
        OtherProp(seeded, o, p, s, t, q);
      }
    }
  }

  /** A step leaves every existing forwarding to t in place. */
  lemma StepKeepsLinks(h: Heap, t: ObjId, o: ObjId, p: Prop, copy: bool, hard: bool, x: ObjId, q: Prop)
    requires Acyclic(h) && LinkedTo(h, x, q, t)
    ensures LinkedTo(RedirectStep(h, t, o, p, copy, hard).heap, x, q, t)
  {
    StepFrame(h, t, o, p, copy, hard);
    LandingPlain(h, t, p);
  }

  /** A step whose origin is off the target's read walk never closes a cycle, and it
      adds no object to the walk from the target. */
  lemma StepNoCycle(h: Heap, t: ObjId, o: ObjId, p: Prop, copy: bool, hard: bool)
    requires Acyclic(h) && !Reaches(h, t, p, o)
    ensures RedirectStep(h, t, o, p, copy, hard).status != Cycle
    ensures forall x, q :: Reaches(RedirectStep(h, t, o, p, copy, hard).heap, t, q, x) ==> Reaches(h, t, q, x)
  {
    var seeded := Seeded(h, t, o, p, copy, hard);
    var seeding := copy && (hard || Falsy(Get(h, t, p)));
    var v := Get(h, o, p);
    forall x, q | Reaches(seeded, t, q, x) ensures Reaches(h, t, q, x) {
      if seeding {
        ReachesShrink(h, Landing(h, t, p), p, Data(v), t, q, x);
      }
    }
    var r := RedirectStep(h, t, o, p, copy, hard);
    if r.status == Done {
      var s := Accessor(t, SlotOf(seeded, o, p).Some?);
      forall x, q | Reaches(r.heap, t, q, x) ensures Reaches(h, t, q, x) {
        ReachesShrink(seeded, o, p, s, t, q, x);
      }
    }
  }

  // ---------------------------------------------------------------------------
  // A whole run

  lemma {:induction false} AllKeepsLinks(h: Heap, t: ObjId, pairs: seq<(ObjId, Prop)>, copy: bool, hard: bool, x: ObjId, q: Prop)
    requires Acyclic(h) && LinkedTo(h, x, q, t)
    requires RedirectAll(h, t, pairs, copy, hard).status != Cycle
    ensures LinkedTo(RedirectAll(h, t, pairs, copy, hard).heap, x, q, t)
    decreases |pairs|
  {
    if pairs != [] {
      var step := RedirectStep(h, t, pairs[0].0, pairs[0].1, copy, hard);
      StepKeepsLinks(h, t, pairs[0].0, pairs[0].1, copy, hard, x, q);
      if step.status == Done {
        AllKeepsLinks(step.heap, t, pairs[1..], copy, hard, x, q);
      }
    }
  }

  /** After a run that completes, every (origin, prop) pair forwards to target[prop]. */
  lemma {:induction false} RedirectLinksAll(h: Heap, t: ObjId, pairs: seq<(ObjId, Prop)>, copy: bool, hard: bool)
    requires Acyclic(h)
    requires RedirectAll(h, t, pairs, copy, hard).status == Done
    ensures forall i :: 0 <= i < |pairs| ==> LinkedTo(RedirectAll(h, t, pairs, copy, hard).heap, pairs[i].0, pairs[i].1, t)
    decreases |pairs|
  {
    if pairs != [] {
      var step := RedirectStep(h, t, pairs[0].0, pairs[0].1, copy, hard);
      StepSeeds(h, t, pairs[0].0, pairs[0].1, copy, hard);
      RedirectLinksAll(step.heap, t, pairs[1..], copy, hard);
      AllKeepsLinks(step.heap, t, pairs[1..], copy, hard, pairs[0].0, pairs[0].1);
      forall i | 1 <= i < |pairs|
        ensures LinkedTo(RedirectAll(h, t, pairs, copy, hard).heap, pairs[i].0, pairs[i].1, t)
      {
        assert pairs[i] == pairs[1..][i - 1];
      }
    }
  }

  /** After a run that completes, origin[prop] and target[prop] are one property: the
      same value is read through both, and a write through either is seen by both. */
  lemma RedirectForwards(h: Heap, t: ObjId, pairs: seq<(ObjId, Prop)>, copy: bool, hard: bool, i: nat, v: Value)
    requires Acyclic(h)
    requires RedirectAll(h, t, pairs, copy, hard).status == Done
    requires i < |pairs|
    ensures var r := RedirectAll(h, t, pairs, copy, hard).heap;
      && Get(r, pairs[i].0, pairs[i].1) == Get(r, t, pairs[i].1)
      && Set(r, pairs[i].0, pairs[i].1, v) == Set(r, t, pairs[i].1, v)
      && Acyclic(Set(r, pairs[i].0, pairs[i].1, v))
      && Get(Set(r, pairs[i].0, pairs[i].1, v), t, pairs[i].1) == v
      && Get(Set(r, pairs[i].0, pairs[i].1, v), pairs[i].0, pairs[i].1) == v
  {
    RedirectLinksAll(h, t, pairs, copy, hard);
    LinkedAliases(RedirectAll(h, t, pairs, copy, hard).heap, pairs[i].0, pairs[i].1, t, v);
  }

  /** After a run that completes, origins linked on the same prop share one value: a
      write through one of them is read back through every other. */
  lemma RedirectShares(h: Heap, t: ObjId, pairs: seq<(ObjId, Prop)>, copy: bool, hard: bool, i: nat, j: nat, v: Value)
    requires Acyclic(h)
    requires RedirectAll(h, t, pairs, copy, hard).status == Done
    requires i < |pairs| && j < |pairs| && pairs[i].1 == pairs[j].1
    ensures var r := RedirectAll(h, t, pairs, copy, hard).heap;
      && Get(r, pairs[i].0, pairs[i].1) == Get(r, pairs[j].0, pairs[j].1)
      && Acyclic(Set(r, pairs[i].0, pairs[i].1, v))
      && Get(Set(r, pairs[i].0, pairs[i].1, v), pairs[j].0, pairs[j].1) == v
  {
    var r := RedirectAll(h, t, pairs, copy, hard).heap;
    var p := pairs[i].1;
    RedirectLinksAll(h, t, pairs, copy, hard);
    LinkedAliases(r, pairs[i].0, p, t, v);
    LinkedAliases(r, pairs[j].0, p, t, v);
    LandingPlain(r, t, p);
    LinkedAliases(Set(r, t, p, v), pairs[j].0, p, t, v);
  }

  /** A run changes only the (origin, prop) slots it links and, when copying, the slot a
      write of target[prop] lands on; prototypes never change. */
  lemma {:induction false} RedirectFrame(h: Heap, t: ObjId, pairs: seq<(ObjId, Prop)>, copy: bool, hard: bool)
    requires Acyclic(h)
    requires RedirectAll(h, t, pairs, copy, hard).status != Cycle
    ensures RedirectAll(h, t, pairs, copy, hard).heap.proto == h.proto
    ensures forall x, q :: (x, q) !in pairs && !(copy && q in PropsOf(pairs) && x == Landing(h, t, q)) ==>
              SlotOf(RedirectAll(h, t, pairs, copy, hard).heap, x, q) == SlotOf(h, x, q)
    decreases |pairs|
  {
    if pairs != [] {
      var o, p := pairs[0].0, pairs[0].1;
      var step := RedirectStep(h, t, o, p, copy, hard);
      StepFrame(h, t, o, p, copy, hard);
      if step.status == Done {
        var rest := pairs[1..];
        RedirectFrame(step.heap, t, rest, copy, hard);
        forall q ensures Landing(step.heap, t, q) == Landing(h, t, q) {
          StepKeepsLanding(h, t, o, p, copy, hard, q);
        }
        forall x, q | (x, q) !in pairs && !(copy && q in PropsOf(pairs) && x == Landing(h, t, q))
          ensures SlotOf(RedirectAll(h, t, pairs, copy, hard).heap, x, q) == SlotOf(h, x, q)
        {
        }
      }
    }
  }

  /** No run closes a cycle when no origin lies on the target's read walk for its prop. */
  lemma {:induction false} NoCycleOffChain(h: Heap, t: ObjId, pairs: seq<(ObjId, Prop)>, copy: bool, hard: bool)
    requires Acyclic(h)
    requires forall i :: 0 <= i < |pairs| ==> !Reaches(h, t, pairs[i].1, pairs[i].0)
    ensures RedirectAll(h, t, pairs, copy, hard).status != Cycle
    decreases |pairs|
  {
    if pairs != [] {
      var step := RedirectStep(h, t, pairs[0].0, pairs[0].1, copy, hard);
      StepNoCycle(h, t, pairs[0].0, pairs[0].1, copy, hard);
      if step.status == Done {
        forall i | 0 <= i < |pairs[1..]| ensures !Reaches(step.heap, t, pairs[1..][i].1, pairs[1..][i].0) {
          assert pairs[1..][i] == pairs[i + 1];
        }
        NoCycleOffChain(step.heap, t, pairs[1..], copy, hard);
      }
    }
  }

  // ---------------------------------------------------------------------------
  // Order of processing

  lemma {:induction false} RowOrder<A>(x: A, ps: seq<Prop>)
    ensures |Row(x, ps)| == |ps|
    ensures forall j :: 0 <= j < |ps| ==> Row(x, ps)[j] == (x, ps[j])
    decreases |ps|
  {
    if ps != [] {
      RowOrder(x, ps[1..]);
    }
  }

  lemma {:induction false} PairsAppend<A>(a: seq<A>, b: seq<A>, ps: seq<Prop>)
    ensures Pairs(a + b, ps) == Pairs(a, ps) + Pairs(b, ps)
    decreases |a|
  {
    if a == [] {
      assert a + b == b;
    } else {
      assert (a + b)[1..] == a[1..] + b;
      PairsAppend(a[1..], b, ps);
    }
  }

  /** The row of xs[i] is processed after the rows of every earlier item and before
      the rows of every later one. */
  lemma PairsOrder<A>(xs: seq<A>, ps: seq<Prop>, i: nat)
    requires i < |xs|
    ensures Pairs(xs, ps) == Pairs(xs[..i], ps) + Row(xs[i], ps) + Pairs(xs[i + 1..], ps)
  {
    var front, back := xs[..i], xs[i..];
    assert xs == front + back;
    PairsAppend(front, back, ps);
    assert back[0] == xs[i] && back[1..] == xs[i + 1..];
    assert Pairs(back, ps) == Row(xs[i], ps) + Pairs(xs[i + 1..], ps);
  }

  /** (x, p) is processed exactly when x is one of the items and p one of the props. */
  lemma {:induction false} PairsMembers<A>(xs: seq<A>, ps: seq<Prop>, x: A, p: Prop)
    ensures (x, p) in Pairs(xs, ps) <==> x in xs && p in ps
    decreases |xs|
  {
    if xs != [] {
      RowOrder(xs[0], ps);
      PairsMembers(xs[1..], ps, x, p);
      assert x in xs <==> x == xs[0] || x in xs[1..];
    }
  }

  // ---------------------------------------------------------------------------
  // Several origins sharing one prop

  /** The value target[prop] holds after seeding from each of `srcs` in turn. */
  function FoldSeed(cur: Value, srcs: seq<Value>, copy: bool, hard: bool): Value
    decreases |srcs|
  {
    if srcs == [] then cur else FoldSeed(SeedValue(cur, srcs[0], copy, hard), srcs[1..], copy, hard)
  }

  /** The position of the first truthy value, if any. */
  function FirstTruthy(vs: seq<Value>): (r: Option<nat>)
    ensures r.Some? ==> r.value < |vs| && !Falsy(vs[r.value]) && forall j :: 0 <= j < r.value ==> Falsy(vs[j])
    ensures r.None? ==> forall j :: 0 <= j < |vs| ==> Falsy(vs[j])
    decreases |vs|
  {
    if vs == [] then None
    else if !Falsy(vs[0]) then Some(0)
    else match FirstTruthy(vs[1..])
      case None => None
      case Some(k) => Some(k + 1)
  }

  /** Without copyProps, or with a truthy target under soft copying, the target keeps its value. */
  lemma {:induction false} FoldSeedKeeps(cur: Value, srcs: seq<Value>, copy: bool, hard: bool)
    requires !copy || (!hard && !Falsy(cur))
    ensures FoldSeed(cur, srcs, copy, hard) == cur
    decreases |srcs|
  {
    if srcs != [] {
      FoldSeedKeeps(cur, srcs[1..], copy, hard);
    }
  }

  /** With hardCopy, the last origin's value wins. */
  lemma {:induction false} FoldSeedHard(cur: Value, srcs: seq<Value>)
    requires srcs != []
    ensures FoldSeed(cur, srcs, true, true) == srcs[|srcs| - 1]
    decreases |srcs|
  {
    if |srcs| > 1 {
      FoldSeedHard(srcs[0], srcs[1..]);
    }
  }

  /** With soft copying onto a falsy target, the first truthy origin value wins; when
      every origin value is falsy, the last one is left behind. */
  lemma {:induction false} FoldSeedSoft(cur: Value, srcs: seq<Value>)
    requires Falsy(cur) && srcs != []
    ensures FoldSeed(cur, srcs, true, false)
      == if FirstTruthy(srcs).Some? then srcs[FirstTruthy(srcs).value] else srcs[|srcs| - 1]
    decreases |srcs|
  {
    if !Falsy(srcs[0]) {
      FoldSeedKeeps(srcs[0], srcs[1..], true, false);
    } else if |srcs| > 1 {
      FoldSeedSoft(srcs[0], srcs[1..]);
    }
  }

  /** A step for origin o spares another origin x off the target's walk whose read stops at
      x itself (an own data slot, or no own slot and no prototype). */
  lemma StepSparesOrigin(h: Heap, t: ObjId, o: ObjId, p: Prop, copy: bool, hard: bool, x: ObjId)
    requires Acyclic(h) && !Reaches(h, t, p, o) && !Reaches(h, t, p, x) && x != o
    requires Next(h, x, p).None?
    ensures RedirectStep(h, t, o, p, copy, hard).status != Cycle
    ensures var h1 := RedirectStep(h, t, o, p, copy, hard).heap;
      && SlotOf(h1, x, p) == SlotOf(h, x, p)
      && Next(h1, x, p).None?
      && Get(h1, x, p) == Get(h, x, p)
      && !Reaches(h1, t, p, x)
  {
    StepNoCycle(h, t, o, p, copy, hard);
    StepFrame(h, t, o, p, copy, hard);
    LandingReached(h, t, p);
    var h1 := RedirectStep(h, t, o, p, copy, hard).heap;
    Unfold(h, x, p);
    Unfold(h1, x, p);
  }

  ghost function OriginValues(h: Heap, os: seq<ObjId>, p: Prop): (vs: seq<Value>)
    requires Acyclic(h)
  {
    seq(|os|, i requires 0 <= i < |os| => Get(h, os[i], p))
  }

  /** Redirecting one prop of several distinct, not yet linked origins off the target's walk,
      each holding the prop as its own data property or lacking it with no prototype, completes and leaves in target[prop] the fold of the
      seeding rule over the origins' values in order. */
  lemma {:induction false} SharedPropSeeds(h: Heap, t: ObjId, os: seq<ObjId>, p: Prop, copy: bool, hard: bool)
    requires Acyclic(h)
    requires forall i, j :: 0 <= i < j < |os| ==> os[i] != os[j]
    requires forall i :: 0 <= i < |os| ==> Next(h, os[i], p).None?
    requires forall i :: 0 <= i < |os| ==> !Reaches(h, t, p, os[i])
    ensures RedirectAll(h, t, Pairs(os, [p]), copy, hard).status == Done
    ensures Get(RedirectAll(h, t, Pairs(os, [p]), copy, hard).heap, t, p) == FoldSeed(Get(h, t, p), OriginValues(h, os, p), copy, hard)
    decreases |os|
  {
    if os != [] {
      var o := os[0];
      var rest := os[1..];
      RowOrder(o, [p]);
      assert Pairs(os, [p]) == [(o, p)] + Pairs(rest, [p]);
      RedirectAllCons(h, t, (o, p), Pairs(rest, [p]), copy, hard);
      var step := RedirectStep(h, t, o, p, copy, hard);
      StepNoCycle(h, t, o, p, copy, hard);
      StepSeeds(h, t, o, p, copy, hard);
      var h1 := step.heap;
      StepSparesRest(h, t, os, p, copy, hard);
      SharedPropSeeds(h1, t, rest, p, copy, hard);
      assert OriginValues(h, os, p) == [Get(h, o, p)] + OriginValues(h1, rest, p);
    }
  }

  /** The step for the first origin spares all later ones. */
  lemma StepSparesRest(h: Heap, t: ObjId, os: seq<ObjId>, p: Prop, copy: bool, hard: bool)
    requires Acyclic(h) && os != []
    requires forall i, j :: 0 <= i < j < |os| ==> os[i] != os[j]
    requires forall i :: 0 <= i < |os| ==> Next(h, os[i], p).None?
    requires forall i :: 0 <= i < |os| ==> !Reaches(h, t, p, os[i])
    ensures RedirectStep(h, t, os[0], p, copy, hard).status != Cycle
    ensures var h1 := RedirectStep(h, t, os[0], p, copy, hard).heap;
      forall i :: 1 <= i < |os| ==>
        && Next(h1, os[i], p).None?
        && Get(h1, os[i], p) == Get(h, os[i], p)
        && !Reaches(h1, t, p, os[i])
  {
    StepNoCycle(h, t, os[0], p, copy, hard);
    forall i | 1 <= i < |os|
      ensures var h1 := RedirectStep(h, t, os[0], p, copy, hard).heap;
        && Next(h1, os[i], p).None?
        && Get(h1, os[i], p) == Get(h, os[i], p)
        && !Reaches(h1, t, p, os[i])
    {
      StepSparesOrigin(h, t, os[0], p, copy, hard, os[i]);
    }
  }

  /** An accessor created where the origin had no own prop is non-configurable, so
      redirecting the same (origin, prop) pair again throws a TypeError. */
  lemma RedirectTwiceThrows(h: Heap, t: ObjId, o: ObjId, p: Prop, copy: bool, hard: bool)
    requires Acyclic(h) && SlotOf(h, o, p).None? && !Reaches(h, t, p, o)
    ensures RedirectAll(h, t, [(o, p), (o, p)], copy, hard).status == Thrown(TypeError)
  {
    StepNoCycle(h, t, o, p, copy, hard);
    StepSeeds(h, t, o, p, copy, hard);
    StepFrame(h, t, o, p, copy, hard);
    LandingReached(h, t, p);
    var h1 := RedirectStep(h, t, o, p, copy, hard).heap;
    assert SlotOf(h1, o, p) == Some(Accessor(t, false));
    assert [(o, p), (o, p)][1..] == [(o, p)];
    StepNoCycle(h1, t, o, p, copy, hard);
    StepSeeds(h1, t, o, p, copy, hard);
  }
}
