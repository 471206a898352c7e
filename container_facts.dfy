/**
 * What ClassContainer promises: setProps assigns its params, a contained instance is
 * stored under its key and inherits from the container through its class prototype,
 * and linkPropsOf is redirectPropsTo with the members as origins and the container as
 * target, so that a prop linked from several classes is one shared property.
 */
module ContainerFacts {
  import opened JsHeap
  import opened RedirectProps
  import opened RedirectFacts
  import opened Container

  // ---------------------------------------------------------------------------
  // setProps

  /** The value the last (k, v) entry for k gives, if any. */
  function Lookup(params: seq<(Prop, Value)>, k: Prop): (r: Option<Value>)
    ensures r.None? <==> forall i :: 0 <= i < |params| ==> params[i].0 != k
    ensures r.Some? ==> exists i :: 0 <= i < |params| && params[i] == (k, r.value)
                                    && forall j :: i < j < |params| ==> params[j].0 != k
    decreases |params|
  {
    if params == [] then
      None
    else
      match Lookup(params[1..], k)
      case Some(v) =>
        assert forall j :: 0 <= j < |params[1..]| ==> params[1..][j] == params[j + 1];
        Some(v)
      case None => if params[0].0 == k then Some(params[0].1) else None
  }

  /** After Object.assign(o, params), o[k] reads the last value params gives for k; a
      prop params does not name reads as before, from every object. */
  lemma {:induction false} AssignAllReads(h: Heap, o: ObjId, params: seq<(Prop, Value)>, k: Prop)
    requires Acyclic(h)
    ensures Lookup(params, k).Some? ==> Get(AssignAll(h, o, params), o, k) == Lookup(params, k).value
    ensures Lookup(params, k).None? ==> forall x :: Get(AssignAll(h, o, params), x, k) == Get(h, x, k)
    decreases |params|
  {
    if params != [] {
      var (q, v) := params[0];
      var h1 := Set(h, o, q, v);
      SetAcyclic(h, o, q, v);
      AssignAllReads(h1, o, params[1..], k);
      if Lookup(params[1..], k).None? {
        if q == k {
          ReadAfterWrite(h, o, k, v);
        } else {
          forall x ensures Get(h1, x, k) == Get(h, x, k) {
            OtherProp(h, Landing(h, o, q), q, Data(v), x, k);
          }
        }
      }
    }
  }

  // ---------------------------------------------------------------------------
  // linkPropsOf as redirectPropsTo

  /** While this[key] holds the member m, one linkPropsOf iteration is the redirectProp
      step from m to the container with copyProps on and hardCopy set to propsOverride.
      With override on this needs prop != key; without it the member is truthy, so nothing
      is seeded even when prop is key. The step leaves every other prop of the container
      reading as before, and without override a truthy c[prop] too. */
  lemma LinkStepIsRedirect(h: Heap, c: ObjId, key: Prop, m: ObjId, p: Prop, ov: bool)
    requires Acyclic(h) && Get(h, c, key) == Ref(m) && (ov ==> p != key)
    ensures LinkStep(h, c, key, p, ov) == RedirectStep(h, c, m, p, true, ov)
    ensures LinkStep(h, c, key, p, ov).status != Cycle ==>
      forall k :: k != p ==> Get(LinkStep(h, c, key, p, ov).heap, c, k) == Get(h, c, k)
    ensures LinkStep(h, c, key, p, ov).status != Cycle && !ov && !Falsy(Get(h, c, p)) ==>
      Get(LinkStep(h, c, key, p, ov).heap, c, p) == Get(h, c, p)
  {
    var seeded := Seeded(h, c, m, p, true, ov);
    forall k | k != p ensures Get(seeded, c, k) == Get(h, c, k) {
      if ov || Falsy(Get(h, c, p)) {
        OtherProp(h, Landing(h, c, p), p, Data(Get(h, m, p)), c, k);
      }
    }
    var r := RedirectStep(h, c, m, p, true, ov);
    if r.status == Done {
      forall k | k != p ensures Get(r.heap, c, k) == Get(seeded, c, k) {
        OtherProp(seeded, m, p, Accessor(c, SlotOf(seeded, m, p).Some?), c, k);
      }
      if !ov && !Falsy(Get(h, c, p)) {
        Avoid(h, m, p, Accessor(c, SlotOf(h, m, p).Some?), c);
      }
    }
  }

  /** The same for a list of (key, prop) pairs whose keys hold members; a prop that is one
      of `keys` is allowed only without override, and that key must hold a member. */
  lemma {:induction false} LinkAllIsRedirect(h: Heap, c: ObjId, keys: seq<Prop>, kps: seq<(Prop, Prop)>,
                                             mps: seq<(ObjId, Prop)>, ov: bool)
    requires Acyclic(h) && |kps| == |mps|
    requires forall i :: 0 <= i < |kps| ==> kps[i].1 == mps[i].1 && kps[i].0 in keys && Get(h, c, kps[i].0) == Ref(mps[i].0)
    requires forall i, j :: 0 <= i < |kps| && 0 <= j < |keys| && kps[i].1 == keys[j] ==> !ov && Get(h, c, keys[j]).Ref?
    ensures LinkAll(h, c, kps, ov) == RedirectAll(h, c, mps, true, ov)
    ensures LinkAll(h, c, kps, ov).status != Cycle ==>
      forall j :: 0 <= j < |keys| ==> Get(LinkAll(h, c, kps, ov).heap, c, keys[j]) == Get(h, c, keys[j])
    decreases |kps|
  {
    if kps != [] {
      var (k, p) := kps[0];
      var m := mps[0].0;
      if p == k {
        var j :| 0 <= j < |keys| && keys[j] == k;
      }
      LinkStepIsRedirect(h, c, k, m, p, ov);
      var step := LinkStep(h, c, k, p, ov);
      if step.status == Done {
        forall j | 0 <= j < |keys| ensures Get(step.heap, c, keys[j]) == Get(h, c, keys[j]) {
          if kps[0].1 == keys[j] {
            assert !ov && Get(h, c, keys[j]).Ref?;
          }
        }
        forall i | 0 <= i < |kps[1..]|
          ensures kps[1..][i].1 == mps[1..][i].1 && kps[1..][i].0 in keys
          ensures Get(step.heap, c, kps[1..][i].0) == Ref(mps[1..][i].0)
        {
          assert kps[1..][i] == kps[i + 1] && mps[1..][i] == mps[i + 1];
          var j :| 0 <= j < |keys| && keys[j] == kps[i + 1].0;
        }
        forall i, j | 0 <= i < |kps[1..]| && 0 <= j < |keys| && kps[1..][i].1 == keys[j]
          ensures !ov && Get(step.heap, c, keys[j]).Ref?
        {
          assert kps[1..][i] == kps[i + 1];
        }
        LinkAllIsRedirect(step.heap, c, keys, kps[1..], mps[1..], ov);
      }
    }
  }

  /** The members this[key] holds, key by key. */
  ghost function Members(h: Heap, c: ObjId, keys: seq<Prop>): (ms: seq<ObjId>)
    requires Acyclic(h) && forall k <- keys :: Get(h, c, k).Ref?
  {
    seq(|keys|, i requires 0 <= i < |keys| => Get(h, c, keys[i]).id)
  }

  /** One key's row of linkPropsOf is the redirectPropsTo row of the member it holds. */
  lemma LinkRowIsRedirect(h: Heap, c: ObjId, keys: seq<Prop>, k: Prop, props: seq<Prop>, ov: bool)
    requires Acyclic(h) && k in keys && Get(h, c, k).Ref?
    requires forall p <- props :: p in keys ==> !ov && Get(h, c, p).Ref?
    ensures LinkAll(h, c, Row(k, props), ov) == RedirectAll(h, c, Row(Get(h, c, k).id, props), true, ov)
    ensures LinkAll(h, c, Row(k, props), ov).status != Cycle ==>
      forall j :: 0 <= j < |keys| ==> Get(LinkAll(h, c, Row(k, props), ov).heap, c, keys[j]) == Get(h, c, keys[j])
  {
    RowOrder(k, props);
    RowOrder(Get(h, c, k).id, props);
    forall i, j | 0 <= i < |props| && 0 <= j < |keys| && Row(k, props)[i].1 == keys[j]
      ensures !ov && Get(h, c, keys[j]).Ref?
    {
      assert props[i] in props;
    }
    LinkAllIsRedirect(h, c, keys, Row(k, props), Row(Get(h, c, k).id, props), ov);
  }

  lemma {:induction false} LinkRowsIsRedirect(h: Heap, c: ObjId, keys: seq<Prop>, todo: seq<Prop>, props: seq<Prop>, ov: bool)
    requires Acyclic(h)
    requires forall k <- keys :: Get(h, c, k).Ref?
    requires forall k <- todo :: k in keys
    requires ov ==> forall p <- props :: p !in keys
    ensures LinkAll(h, c, Pairs(todo, props), ov) == RedirectAll(h, c, Pairs(Members(h, c, todo), props), true, ov)
    decreases |todo|
  {
    if todo != [] {
      var k := todo[0];
      var ms := Members(h, c, todo);
      var rest := Members(h, c, todo[1..]);
      assert ms == [ms[0]] + rest;
      assert Pairs(ms, props) == Row(ms[0], props) + Pairs(rest, props);
      LinkRowIsRedirect(h, c, keys, k, props, ov);
      LinkAllAppend(h, c, Row(k, props), Pairs(todo[1..], props), ov);
      RedirectAllAppend(h, c, Row(ms[0], props), Pairs(rest, props), true, ov);
      var row := LinkAll(h, c, Row(k, props), ov);
      if row.status == Done {
        assert forall k' <- keys :: Get(row.heap, c, k') == Get(h, c, k');
        assert Members(row.heap, c, todo[1..]) == rest;
        LinkRowsIsRedirect(row.heap, c, keys, todo[1..], props, ov);
      }
    }
  }

  /** linkPropsOf(keys, props, propsOverride) is redirectPropsTo(this, members, props, true,
      propsOverride) when every key holds an object and, with override on, no linked prop
      is itself a key. */
  lemma LinkPropsIsRedirect(h: Heap, c: ObjId, keys: seq<Prop>, props: seq<Prop>, ov: bool)
    requires Acyclic(h)
    requires forall k <- keys :: Get(h, c, k).Ref?
    requires ov ==> forall p <- props :: p !in keys
    ensures LinkAll(h, c, Pairs(keys, props), ov) == RedirectAll(h, c, Pairs(Members(h, c, keys), props), true, ov)
  {
    LinkRowsIsRedirect(h, c, keys, keys, props, ov);
  }

  /** A prop linked from several contained classes is one property of the container: a
      write through one member is read back through every other, and through the container. */
  lemma LinkedClassesShare(h: Heap, c: ObjId, keys: seq<Prop>, props: seq<Prop>, ov: bool,
                           a: nat, b: nat, p: Prop, v: Value)
    requires Acyclic(h)
    requires forall k <- keys :: Get(h, c, k).Ref?
    requires ov ==> forall q <- props :: q !in keys
    requires LinkAll(h, c, Pairs(keys, props), ov).status == Done
    requires a < |keys| && b < |keys| && p in props
    ensures var r := LinkAll(h, c, Pairs(keys, props), ov).heap;
      var ma := Get(h, c, keys[a]).id;
      var mb := Get(h, c, keys[b]).id;
      && Get(r, ma, p) == Get(r, mb, p) == Get(r, c, p)
      && Acyclic(Set(r, ma, p, v))
      && Get(Set(r, ma, p, v), mb, p) == v
      && Get(Set(r, ma, p, v), c, p) == v
  {
    var ms := Members(h, c, keys);
    var pairs := Pairs(ms, props);
    LinkPropsIsRedirect(h, c, keys, props, ov);
    PairsMembers(ms, props, ms[a], p);
    PairsMembers(ms, props, ms[b], p);
    var i :| 0 <= i < |pairs| && pairs[i] == (ms[a], p);
    var j :| 0 <= j < |pairs| && pairs[j] == (ms[b], p);
    RedirectShares(h, c, pairs, true, ov, i, j, v);
    RedirectForwards(h, c, pairs, true, ov, i, v);
  }

  // ---------------------------------------------------------------------------
  // Errors and the key-as-prop case

  /** When this[key] holds no object, the iteration throws a TypeError; for undefined or
      null it throws before changing anything. */
  lemma LinkStepNonObject(h: Heap, c: ObjId, key: Prop, p: Prop, ov: bool)
    requires Acyclic(h) && !Get(h, c, key).Ref?
    ensures LinkStep(h, c, key, p, ov).status == Thrown(TypeError)
    ensures Get(h, c, key) in {Undefined, Null} ==> LinkStep(h, c, key, p, ov).heap == h
  {
    if ov || Falsy(Get(h, c, p)) {
      if p == key {
        ReadAfterWrite(h, c, key, Undefined);
      } else {
        OtherProp(h, Landing(h, c, p), p, Data(Undefined), c, key);
      }
    }
  }

  /** Unlike redirectPropsTo, linkPropsOf reads this[key] again after seeding: when the
      prop is the key itself, seeding replaces the stored member by its own prop value, and
      defining an accessor on that primitive throws a TypeError. */
  lemma LinkKeyAsProp(h: Heap, c: ObjId, key: Prop, m: ObjId)
    requires Acyclic(h) && Get(h, c, key) == Ref(m)
    requires !Get(h, m, key).Ref?
    ensures LinkStep(h, c, key, key, true).status == Thrown(TypeError)
    ensures Get(LinkStep(h, c, key, key, true).heap, c, key) == Get(h, m, key)
  {
    ReadAfterWrite(h, c, key, Get(h, m, key));
  }

  /** Without override, the stored member is truthy, so nothing is seeded: the member's
      own `key` prop becomes an accessor forwarding to the container's `key`, which still
      holds the member, so the member's `key` then reads the member itself. */
  lemma LinkKeyAsPropNoOverride(h: Heap, c: ObjId, key: Prop, m: ObjId)
    requires Acyclic(h) && Get(h, c, key) == Ref(m)
    requires !IsAccessor(h, m, key) && !Reaches(h, c, key, m)
    ensures LinkStep(h, c, key, key, false).status == Done
    ensures var r := LinkStep(h, c, key, key, false).heap;
      && LinkedTo(r, m, key, c)
      && Get(r, c, key) == Ref(m)
      && Get(r, m, key) == Ref(m)
  {
    var r := LinkStep(h, c, key, key, false).heap;
    Avoid(h, m, key, Accessor(c, SlotOf(h, m, key).Some?), c);
    Unfold(r, m, key);
  }

  // ---------------------------------------------------------------------------
  // containClass

  /** containClass throws before changing anything when the class prototype is the
      container itself; otherwise the new instance inherits from its class prototype, which
      inherits from the container, so the instance reads a prop it and its class prototype
      lack from the container. */
  lemma ContainInherits(h: Heap, c: ObjId, key: Prop, cp: ObjId, fields: seq<(Prop, Value)>, m: ObjId,
                        linkProps: Option<seq<Prop>>, ov: bool, q: Prop)
    requires Acyclic(h) && Closed(h) && c in h.slots && cp in h.slots && m !in h.slots
    ensures cp == c ==> Contain(h, c, key, cp, fields, m, linkProps, ov) == Run(h, Thrown(TypeError))
    ensures var r := Contain(h, c, key, cp, fields, m, linkProps, ov);
      cp != c && r.status != Cycle ==>
        && r.heap.proto[m] == cp && r.heap.proto[cp] == c
        && (SlotOf(r.heap, m, q).None? && SlotOf(r.heap, cp, q).None? ==> Get(r.heap, m, q) == Get(r.heap, c, q))
  {
    var r := Contain(h, c, key, cp, fields, m, linkProps, ov);
    if cp != c && r.status != Cycle {
      assert m != cp;
      Unfold(r.heap, m, q);
      Unfold(r.heap, cp, q);
    }
  }

  /** linkPropsOf([key], props) with this[key] holding m: key keeps m, and each prop
      forwards from m to the container. */
  lemma LinkOneKey(h: Heap, c: ObjId, key: Prop, m: ObjId, ps: seq<Prop>, ov: bool)
    requires Acyclic(h) && Get(h, c, key) == Ref(m)
    requires ov ==> key !in ps
    requires LinkAll(h, c, Pairs([key], ps), ov).status == Done
    ensures var r := LinkAll(h, c, Pairs([key], ps), ov).heap;
      Get(r, c, key) == Ref(m) && forall p <- ps :: LinkedTo(r, m, p, c)
  {
    LinkPropsIsRedirect(h, c, [key], ps, ov);
    assert Members(h, c, [key]) == [m];
    var pairs := Pairs([m], ps);
    RowOrder(key, ps);
    RowOrder(m, ps);
    assert Pairs([key], ps) == Row(key, ps);
    assert pairs == Row(m, ps);
    LinkAllIsRedirect(h, c, [key], Row(key, ps), Row(m, ps), ov);
    RedirectLinksAll(h, c, pairs, true, ov);
    forall p <- ps ensures LinkedTo(LinkAll(h, c, Pairs([key], ps), ov).heap, m, p, c) {
      var j :| 0 <= j < |ps| && ps[j] == p;
      assert pairs[j] == (m, p);
    }
  }

  /** After containClass completes, this[key] holds the new instance, and each prop named
      in linkProps forwards from the instance to the container, provided that with
      linkPropsOverride on linkProps does not name key itself. */
  lemma ContainStoresAndLinks(h: Heap, c: ObjId, key: Prop, cp: ObjId, fields: seq<(Prop, Value)>, m: ObjId,
                              linkProps: Option<seq<Prop>>, ov: bool)
    requires Acyclic(h) && Closed(h) && c in h.slots && cp in h.slots && m !in h.slots
    requires linkProps.Some? && ov ==> key !in linkProps.value
    requires Contain(h, c, key, cp, fields, m, linkProps, ov).status == Done
    ensures var r := Contain(h, c, key, cp, fields, m, linkProps, ov).heap;
      && Get(r, c, key) == Ref(m)
      && (linkProps.Some? ==> forall p <- linkProps.value :: LinkedTo(r, m, p, c))
  {
    var h1 := Reparent(h, cp, c);
    AllocFacts(h1, m, Some(cp));
    var h2 := AssignAll(Alloc(h1, m, Some(cp)), m, fields);
    ReadAfterWrite(h2, c, key, Ref(m));
    var h3 := Set(h2, c, key, Ref(m));
    if linkProps.Some? {
      LinkOneKey(h3, c, key, m, linkProps.value, ov);
    }
  }
}
