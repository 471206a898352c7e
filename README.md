# redirectPropsTo and ClassContainer, modelled in Dafny

This project models the two pieces of the library that share state between objects.

- `redirectPropsTo(targetObj, origins, props, copyProps = true, hardCopy = false)` walks
  every (origin, prop) pair, origins outer and props inner. For each pair it may first
  seed `targetObj[prop]` from `origin[prop]`. It seeds only when `copyProps` is set, and
  then:
  - always when `hardCopy` is set;
  - otherwise only when the target's value is falsy.

  It then replaces `origin[prop]` by an accessor whose getter and setter forward to
  `targetObj[prop]`.
- `ClassContainer` is an object that does the following:
  - it takes its initial props with `Object.assign` (`setProps`);
  - it holds instances of other classes under keys (`containClass`), first making itself
    the prototype of each class's prototype;
  - it links chosen props of those instances to its own props (`linkPropsOf`), the same
    seed-then-forward step with the container as target.

The JavaScript object model the code relies on is written out in `heap.dfy` (module
`JsHeap`):
- objects with own data properties and own forwarding accessors;
- one prototype edge per object;
- `[[Get]]` and `[[Set]]` as walks along accessors and prototypes;
- `Object.defineProperty` with the rule of sections 10.1.6.3 and 20.1.2.4 of ECMA-262: an
  accessor created on a property the object lacked is non-configurable, and redefining a
  non-configurable accessor throws a `TypeError`;
- ToBoolean falsiness from section 7.1.2 of ECMA-262.

The walks terminate because of a ghost invariant, `Acyclic`: every read walk ends within
some fuel.

The heap is the mutable `Store` class (`store.dfy`). `redirectPropsTo` (`redirect.dfy`)
and `ClassContainer` (`container.dfy`) are methods with nested `while` loops over it,
mirroring the source's nested `forEach` loops. Each method is proved equal to a ghost
specification that folds one step per pair:
- `RedirectAll` / `RedirectStep` for `redirectPropsTo`;
- `LinkAll` / `LinkStep` and `Contain` for the container.

A step that throws ends the run and keeps the mutations already made, as JavaScript does.
The properties are proved about these specifications in `redirect_facts.dfy` and
`container_facts.dfy`.

Three behaviours of the code are easy to miss:
- `linkPropsOf` reads `this[key]` again for every prop, both when seeding (lines 71 and 74)
  and when defining the accessor (line 78). Without `propsOverride` this makes no
  difference: a key holds a member object, which is truthy, so a linked prop that is a
  key is never seeded. With `propsOverride` on, seeding may overwrite a key's member.
  `LinkPropsIsRedirect` therefore proves `linkPropsOf` equal to `redirectPropsTo` with the
  members as origins when override is off, and when it is on and no linked prop is a key.
  When a linked prop is the key itself, what happens depends on `propsOverride`. With
  override on and a member whose own `key` value is not an object, seeding overwrites the
  stored member with that value, and defining the accessor on it throws `TypeError`
  (`LinkKeyAsProp`). Without override the stored member is truthy, so nothing is seeded.
  The member's `key` then forwards to the container's `key`, which still holds the member
  (`LinkKeyAsPropNoOverride`).
- `containClass` links whenever `linkProps` is truthy (line 40). An empty array is truthy,
  so it calls `linkPropsOf` with no props, which changes nothing.
- Redirecting a pair whose origin lacked the prop creates a non-configurable accessor. A
  second redirection of the same pair therefore throws a `TypeError`
  (`RedirectTwiceThrows`), although the source signals no error of its own.

## Model

| member | source | states |
|---|---|---|
| JsHeap.ReadAfterWrite | code/redirectPropsTo.js:23 | after `o[p] = v` a read of `o[p]` gives `v`, the heap stays acyclic, and a later write of `o[p]` lands on the same object |
| JsHeap.LandingPlain | code/redirectPropsTo.js:33-35 | a write through forwarding setters always ends on an object whose own slot is not an accessor |
| JsHeap.LinkAcyclic | code/redirectPropsTo.js:32-37 | installing an accessor `o[p] -> t[p]` keeps every read walk finite when the walk from `t` for `p` does not pass through `o` |
| JsHeap.AllocFacts | code/ClassContainer.js:35 | a new object changes no existing read, and a read of a prop it lacks is the same read on its prototype |
| ObjectStore.Store.Write | code/redirectPropsTo.js:23 | `obj[prop] = v` changes the store to exactly `Set(old heap, obj, prop, v)` and keeps the store valid |
| ObjectStore.Store.Define | code/redirectPropsTo.js:32-37 | `Object.defineProperty` with a forwarding getter/setter throws `TypeError` and changes nothing on a non-configurable accessor, and otherwise installs the accessor |
| ObjectStore.Store.SetPrototype | code/ClassContainer.js:33 | `Object.setPrototypeOf(x, parent)` changes only the prototype edge of `x` |
| ObjectStore.Store.Allocate | code/ClassContainer.js:32-35 | a new object gets a fresh identity and the given prototype; nothing else changes |
| RedirectProps.RedirectStep | code/redirectPropsTo.js:18-38 | one `redirectProp`: the seed write, then the accessor; a step that does not close a cycle leaves an acyclic heap |
| RedirectProps.RedirectProp | code/redirectPropsTo.js:18-38 | the method's final store and status are those of `RedirectStep`, with the seeding branches of lines 19-29 |
| RedirectProps.RedirectRow | code/redirectPropsTo.js:44-46 | the inner loop over props gives the fold of `RedirectStep` over `Row(origin, props)`, stopping at the first exception |
| RedirectProps.RedirectPropsTo | code/redirectPropsTo.js:10-58 | the whole call, with a single item taken as a one-element array, gives the fold over `Pairs(origins, props)`; the final store and status are that fold's |
| RedirectProps.RedirectAllAppend | code/redirectPropsTo.js:42-50 | running two lists of pairs one after the other is running their concatenation, stopping at the first exception |
| RedirectFacts.LinkedAliases | code/redirectPropsTo.js:33-36 | once `origin[prop]` forwards to `target[prop]`, both read the same value, a write through either has the same effect, and both then read the written value |
| RedirectFacts.StepSeeds | code/redirectPropsTo.js:19-37 | after one step `target[prop]` holds `SeedValue(old target value, old origin value, copyProps, hardCopy)`; the step throws exactly when `origin[prop]` already is a non-configurable accessor; on success `origin[prop]` forwards to the target and reads the target's value |
| RedirectFacts.StepFrame | code/redirectPropsTo.js:18-38 | one step changes only `origin[prop]` and, when copying, the slot where a write of `target[prop]` lands; prototypes are unchanged |
| RedirectFacts.StepNoCycle | code/redirectPropsTo.js:32-37 | a step whose origin is off the target's read walk never closes a cycle and adds nothing to any walk from the target |
| RedirectFacts.LinkSurvivesWrite | code/redirectPropsTo.js:33-36 | a later plain assignment anywhere never removes an installed forwarding, so the aliasing lasts |
| RedirectFacts.StepKeepsLinks | code/redirectPropsTo.js:23-37 | a step never removes an existing forwarding to the target |
| RedirectFacts.RedirectLinksAll | code/redirectPropsTo.js:40-57 | after a completed call every (origin, prop) pair is an accessor forwarding to `target[prop]` |
| RedirectFacts.RedirectForwards | code/redirectPropsTo.js:33-36 | after a completed call each origin's prop reads the target's value, and a write through it is read back through both the origin and the target |
| RedirectFacts.RedirectShares | code/redirectPropsTo.js:33-36 | after a completed call, two origins linked on the same prop read the same value, and a write through one is read back through the other |
| RedirectFacts.RedirectFrame | code/redirectPropsTo.js:18-38 | a call changes only the named (origin, prop) slots and, when copying, the slot where a write of `target[prop]` lands; prototypes are unchanged |
| RedirectFacts.NoCycleOffChain | code/redirectPropsTo.js:32-37 | a call never closes a cycle when no origin lies on the target's read walk for its prop |
| RedirectFacts.RowOrder | code/redirectPropsTo.js:44-46 | the inner loop visits `(origin, props[j])` at position `j` |
| RedirectFacts.PairsOrder | code/redirectPropsTo.js:42-50 | the row of `origins[i]` comes after the rows of all earlier origins and before those of all later ones |
| RedirectFacts.PairsMembers | code/redirectPropsTo.js:41-57 | `(o, p)` is processed exactly when `o` is one of the origins and `p` one of the props |
| RedirectFacts.FirstTruthy | code/redirectPropsTo.js:25 | the index returned holds a truthy value and every earlier value is falsy; `None` means every value is falsy |
| RedirectFacts.FoldSeedKeeps | code/redirectPropsTo.js:19-28 | without `copyProps`, or with soft copying onto a truthy target, the target keeps its value across any number of origins |
| RedirectFacts.FoldSeedHard | code/redirectPropsTo.js:20-23 | with `hardCopy` the last origin's value ends up in the target |
| RedirectFacts.FoldSeedSoft | code/redirectPropsTo.js:25-28 | with soft copying onto a falsy target, the first truthy origin value ends up in the target, or the last value when all are falsy |
| RedirectFacts.SharedPropSeeds | code/redirectPropsTo.js:18-50 | redirecting one prop of distinct, not yet linked origins off the target's walk, each holding it as own data or lacking it with no prototype, completes, and the target ends with the seeding rule folded over the origins' values in order |
| RedirectFacts.RedirectTwiceThrows | code/redirectPropsTo.js:32-37 | redirecting a pair whose origin lacked the prop, and then the same pair again, throws a `TypeError` |
| Container.AssignAll | code/ClassContainer.js:52-54 | `Object.assign` as one `[[Set]]` per entry in order; the heap stays acyclic and no prototype changes |
| Container.LinkStep | code/ClassContainer.js:68-83 | one `linkPropsOf` iteration, with `this[key]` read again after seeding; any result without a cycle leaves an acyclic heap, and prototypes are unchanged |
| Container.LinkAll | code/ClassContainer.js:66-86 | the fold of `LinkStep` over (key, prop) pairs, stopping at the first exception; prototypes are unchanged |
| Container.LinkAllAppend | code/ClassContainer.js:67-85 | running two lists of (key, prop) pairs one after the other is running their concatenation |
| Container.Contain | code/ClassContainer.js:28-43 | `containClass` as a specification: a result without a cycle leaves an acyclic heap |
| Container.AssignEach | code/ClassContainer.js:53 | the loop makes the store exactly `AssignAll(old heap, o, params)` |
| Container.ClassContainer.constructor | code/ClassContainer.js:13-15 | a new container object with no prototype edge, holding the constructor params as `Object.assign` leaves them |
| Container.ClassContainer.SetProps | code/ClassContainer.js:52-54 | the store becomes `AssignAll(old heap, this, params)` |
| Container.ClassContainer.LinkProp | code/ClassContainer.js:68-83 | the store and status after one iteration are those of `LinkStep` |
| Container.ClassContainer.LinkRow | code/ClassContainer.js:68-84 | the inner loop gives the fold of `LinkStep` over `Row(key, props)` |
| Container.ClassContainer.LinkPropsOf | code/ClassContainer.js:66-86 | the nested loops give `LinkAll` over `Pairs(keys, props)`, and the container stays valid |
| Container.ClassContainer.ContainClass | code/ClassContainer.js:28-43 | the store and status are those of `Contain`; the new instance is the next fresh identity, and the store gains exactly that object unless the call throws at once because the class prototype is the container |
| ContainerFacts.Lookup | code/ClassContainer.js:53 | `None` exactly when no entry names the key; otherwise an entry with that key and value that no later entry for the key follows |
| ContainerFacts.AssignAllReads | code/ClassContainer.js:52-54 | after `setProps`, `this[k]` reads the last value the params give for `k`; a prop the params do not name reads as before on every object |
| ContainerFacts.LinkStepIsRedirect | code/ClassContainer.js:69-83 | while `this[key]` holds member `m` (and, with `propsOverride` on, `prop != key`), one iteration is exactly `redirectProp` from `m` to the container with copying on and `hardCopy = propsOverride`; no other container prop changes, and without override a truthy `this[prop]` does not change either |
| ContainerFacts.LinkAllIsRedirect | code/ClassContainer.js:67-85 | over any list of pairs whose keys hold members, and whose props are not keys when `propsOverride` is on, `linkPropsOf` equals `redirectPropsTo`'s fold, and the keys keep their members |
| ContainerFacts.LinkRowIsRedirect | code/ClassContainer.js:68-84 | one key's row equals the `redirectPropsTo` row of the member it holds, and the keys keep their members; a prop may be a key only without override and when that key holds a member |
| ContainerFacts.LinkPropsIsRedirect | code/ClassContainer.js:66-86 | `linkPropsOf(keys, props, o)` is `redirectPropsTo(this, members, props, true, o)` when every key holds an object and, with `propsOverride` on, no prop is a key |
| ContainerFacts.LinkedClassesShare | code/ClassContainer.js:77-83 | a prop linked from several contained instances (with `propsOverride` on, a prop that is no key) is one container property: all read the same value, and a write through one is read through every other and through the container |
| ContainerFacts.LinkStepNonObject | code/ClassContainer.js:71-78 | when `this[key]` is no object the iteration throws `TypeError`, also when the linked prop is `key` itself; for `undefined` or `null` it throws before changing anything |
| ContainerFacts.LinkKeyAsProp | code/ClassContainer.js:69-78 | with `propsOverride` on, the linked prop equal to the key, and a member whose own `key` value is not an object: seeding overwrites the stored member with that value, and the iteration then throws `TypeError` |
| ContainerFacts.LinkKeyAsPropNoOverride | code/ClassContainer.js:72-83 | with `propsOverride` off and the linked prop equal to the key, the truthy stored member means nothing is seeded; the member's `key` (when not an accessor and not on the container's walk) becomes an accessor to the container's `key`, which keeps holding the member, so the member's `key` reads the member itself |
| ContainerFacts.ContainInherits | code/ClassContainer.js:32-35 | with the container as class prototype the call throws and changes nothing; otherwise the instance inherits from the class prototype, which inherits from the container, and the instance reads from the container any prop that neither it nor the class prototype owns |
| ContainerFacts.LinkOneKey | code/ClassContainer.js:40-41 | `linkPropsOf([key], props)` with `this[key]` holding `m` leaves `m` under `key` and makes every prop of `m` forward to the container (with override on, when no prop is `key`) |
| ContainerFacts.ContainStoresAndLinks | code/ClassContainer.js:37-42 | after a completed call `this[key]` holds the new instance, and each linked prop forwards from the instance to the container, provided `linkProps` does not name `key` when `linkPropsOverride` is on |

## Left out

- The class constructor run by `new obj.constructor(params)` (line 35 of
  `code/ClassContainer.js`) is not executed. It is represented by the list of field
  assignments it makes on the new instance. A constructor that throws is not modelled.
- The class prototype is given as an object identity. Its own methods and the
  `Object.create` probe object of line 32 are not modelled, because the probe only serves
  to find the constructor.
- `Container.Contain` treats `setPrototypeOf` as throwing only when the class prototype is
  the container itself. This is the prototype-cycle check of section 10.1.2.1 of ECMA-262,
  given that the container's own prototype (`ClassContainer.prototype`, holding only
  methods) is not modelled.
- Re-parenting a class prototype that an earlier container already adopted is modelled as
  the plain prototype change it is. No lemma covers instances contained earlier.
- Built-in prototypes and their props are not modelled. In JavaScript every object
  inherits `Object.prototype`, and the container also inherits `ClassContainer.prototype`.
  So props such as `constructor`, `toString`, `hasOwnProperty`, `setProps` or
  `linkPropsOf` read as functions, which are truthy, and members reach them through the
  container. In the model an object with no prototype edge reads every prop it lacks as
  `undefined`. For such prop names this flips the falsy seeding test (line 25 of
  `code/redirectPropsTo.js`, line 72 of `code/ClassContainer.js`). The `__proto__`
  accessor is not modelled either.
- Setters inherited through the prototype chain are not followed by `[[Set]]`. A write to
  a prop the object lacks lands on the object itself. The accessors this code installs are
  always own properties.
- Data properties are all treated as configurable. Redefining a non-configurable data
  property (one made by `Object.defineProperty(o, p, {value: v})`, or a class's
  `prototype`) throws `TypeError` in JavaScript but succeeds in the model. So
  `StepSeeds` and `DefineProperty` throw only on a non-configurable accessor.
- Property attributes other than configurability are not modelled: enumerable, writable,
  non-extensible and frozen objects, and proxies. Symbols as keys are left out too.
- Numbers are mathematical integers: floating point, `NaN`, `-0` and BigInt are left out.
  So the falsy test has no `NaN` case.
- `redirectPropsTo`'s target and origins are object identities. A call with a primitive
  target or origin, which throws `TypeError` in JavaScript when it reads the prop or
  defines the accessor, cannot be expressed.
- Reading a prop of a primitive member (a number or string stored under a key) gives
  `undefined`. Own props of String wrappers (`length`, indices) and the props of
  `Number.prototype`, `String.prototype` and `Boolean.prototype` are not modelled.
- `Object.assign` params are an ordered list of (key, value) entries. JavaScript's own
  ordering of integer-like keys is left to the caller.
- Calls that would create a forwarding cycle are outside the model. The specifications give
  them the status `Cycle`, and the methods require that status not to occur.
  `NoCycleOffChain` gives a sufficient condition. It is stronger than needed when a seed
  write cuts the target's own walk.
- Values held by the store must refer to allocated objects (`ValuesIn`). This is the model's
  closure invariant, not a restriction of the source.
- The commented-out `console.log` lines of `redirectPropsTo` are not modelled.
