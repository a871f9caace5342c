# redefine-test-helpers, modelled in Dafny

`RedefineTestHelpers` is a small JavaScript utility for test suites. It stubs
properties of a shared object and then puts the old values back:

- `redefine(target, overrides)` walks the own keys of `overrides` in
  `Object.keys` order. For each key it copies `target[key]` into a private
  `originals` table and then writes `overrides[key]` onto `target`. It returns a
  restore closure. When the closure runs, it calls `Object.keys(overrides)`
  again and writes `originals[key]` back onto `target` for each of those keys.
- `redefined(target, overrides, fn)` calls `redefine`, then `fn()`, then the
  restore closure, one after the other, with no `try`/`finally`.

The project has two modules.

- `JsObjects` (`js_objects.dfy`) is the part of JavaScript's object model that
  the helpers depend on. A `Value` can be `undefined`. An object state `Obj`
  holds its own keys in insertion order plus a property table. Reading a
  missing key gives `undefined` (`Get`). `Has` is the `in` test. `Put` is
  assignment: a key that is already there keeps its place, and a new key goes
  last. `Delete` is `delete`. The class `JsObject` is an object whose
  properties change in place. The arbitrary code that `fn` runs is modelled as
  a list of assignments and deletes (`Effect`) applied to the target.
- `RedefineTestHelpers` (`redefine_test_helpers.dfy`) is the helper itself.
  `AssignEach` describes both loops: it does `o[k] = src[k]` for each key in
  order. `Captured` describes the `originals` table. The class `Restorer` is
  the returned closure. It holds `target`, a reference to `overrides`, and an
  immutable `originals`. The methods are `Redefine` and `Redefined`. The
  lemmas state the session properties.

`fn` is a total function `Obj -> Script`. It receives the target state it
observes. It returns the effects it has on the target and whether it then
returns or throws. `Redefined` reports that ending as `Outcome`. `Threw`
stands for the exception passing on to the caller.

Three behaviours of the code that are easy to miss, and that the model keeps:

- The closure calls `Object.keys(overrides)` again when it runs
  (redefine_test_helpers.js:32), so `Restore` reads `overrides.keys` at
  restore time. `RestoreUsesCurrentKeys` states what follows: a key added to
  `overrides` later is set to `undefined`, and a key removed from it is not
  restored.
- Restore assigns rather than deletes (redefine_test_helpers.js:33), so a
  property that was absent before `redefine` comes back as an own property
  holding `undefined` (`AbsentKeyComesBackUndefined`, `RoundTrip`).
- `redefined` has no `try`/`finally` (redefine_test_helpers.js:73-75), so a
  throwing `fn` skips the restore and the overrides stay in place
  (`RedefinedThrowKeepsOverrides`, `ThrowDuringSession`).

## Model

| member | source | states |
|---|---|---|
| JsObjects.Lookup | redefine_test_helpers.js:33 | reading `originals[k]` from a plain table gives the stored value when `k` is present, and a value other than `undefined` only when it is |
| JsObjects.Get | redefine_test_helpers.js:27-28 | reading `o[k]` gives the own property's value when `k` is present, and a value other than `undefined` only when it is |
| JsObjects.Has | redefine_test_helpers.js:26 | for a well-formed object, `k` is an own property exactly when `Object.keys` lists it |
| JsObjects.Empty | redefine_test_helpers.js:25 | the `{}` literal has no own property, and every key reads `undefined` |
| JsObjects.Put | redefine_test_helpers.js:28 | after `o[k] = v`, `k` is present and reads `v`, and every other key keeps its presence and value; an existing key keeps its place in the key order, and a new key goes last; well-formedness is kept |
| JsObjects.Delete | redefine_test_helpers.js:74 | after `delete o[k]` (an effect `fn` may have), `k` is absent and reads `undefined`, and every other key is unchanged |
| JsObjects.WithoutConcat | redefine_test_helpers.js:74 | dropping a key from the key order (as `delete` does) drops it from each part of a concatenation, so the remaining keys keep their relative order |
| JsObjects.Step | redefine_test_helpers.js:74 | one effect of `fn`: the key it names is present exactly when the effect is an assignment, and then holds the assigned value (otherwise reads `undefined`); every other key keeps its presence and value |
| JsObjects.Performed | redefine_test_helpers.js:74 | running `fn`'s effects in order keeps a well-formed object well-formed |
| JsObjects.PerformedFrame | redefine_test_helpers.js:74 | a property that none of `fn`'s effects names keeps its presence and its value |
| JsObjects.JsObject.constructor | redefine_test_helpers.js:25 | a fresh object is `{}` |
| JsObjects.JsObject.Write | redefine_test_helpers.js:28 | an in-place `this[k] = v` gives the state `Put(old state, k, v)` |
| JsObjects.JsObject.Erase | redefine_test_helpers.js:74 | an in-place `delete this[k]` gives the state `Delete(old state, k)` |
| JsObjects.JsObject.Do | redefine_test_helpers.js:74 | carrying out one effect of `fn` in place gives `Step(old state, e)` |
| JsObjects.JsObject.Perform | redefine_test_helpers.js:74 | carrying out `fn`'s effects in place gives `Performed(old state, effs)` |
| RedefineTestHelpers.AssignEach | redefine_test_helpers.js:26-29 | assigning a list of keys one by one keeps a well-formed target well-formed (each own key listed once, in order) |
| RedefineTestHelpers.Captured | redefine_test_helpers.js:25-27 | the `originals` table has exactly the override keys, and reading a key from it gives what the target held there (`undefined` for a missing property or a key not captured) |
| RedefineTestHelpers.AssignEachGet | redefine_test_helpers.js:26-34 | after the assignment loop, a listed key is present and reads its source value (`undefined` if the source lacks it); an unlisted key keeps its presence and value |
| RedefineTestHelpers.AssignEachPresentKeys | redefine_test_helpers.js:32-34 | assigning keys that are already present leaves the key order unchanged |
| RedefineTestHelpers.AssignEachKeepsOrder | redefine_test_helpers.js:26-29 | the old key order survives as a prefix, with new keys appended |
| RedefineTestHelpers.CaptureStep | redefine_test_helpers.js:26-29 | since `Object.keys` gives distinct keys, each loop step reads `target[k]` before anything has written `k`, so `originals` gets the value from before the call |
| RedefineTestHelpers.Restorer.constructor | redefine_test_helpers.js:31-35 | the closure holds the target, the `overrides` object itself, and the captured originals |
| RedefineTestHelpers.Restorer.Restore | redefine_test_helpers.js:31-35 | the target becomes the old state with `originals[k]` assigned for each key `overrides` has when `Restore` runs, in that order |
| RedefineTestHelpers.Redefine | redefine_test_helpers.js:24-36 | the target becomes the old state with every override assigned in key order; the returned restorer is fresh, refers to this target and this `overrides`, and holds the values the override keys had before the call |
| RedefineTestHelpers.RedefinedState | redefine_test_helpers.js:72-76 | the target state after apply, `fn`, and then restore (skipped when `fn` throws) is well-formed whenever the starting state is |
| RedefineTestHelpers.Redefined | redefine_test_helpers.js:72-76 | `fn` sees the target with the overrides applied; the outcome is `Threw` exactly when `fn` throws; the final target is `RedefinedState` of the old state |
| RedefineTestHelpers.ApplyOverrides | redefine_test_helpers.js:26-29 | after `redefine`, every override key is present and equals its override value, and every other key keeps its presence and value, so this is also the state `fn` observes |
| RedefineTestHelpers.RestoreOverwrites | redefine_test_helpers.js:32-34 | restoring from originals captured in state `t` gives every override key its value in `t`, whatever was written there in between (including by `fn`); every other key keeps its current value |
| RedefineTestHelpers.RoundTrip | redefine_test_helpers.js:24-35 | redefine and then an immediate restore: every key reads as before; the keys present are the old ones plus the override keys; the property table is the old one plus `undefined` for previously absent override keys; the old key order is a prefix |
| RedefineTestHelpers.RoundTripExact | redefine_test_helpers.js:24-35 | when every override key was already present, the round trip gives back exactly the original object state |
| RedefineTestHelpers.AbsentKeyComesBackUndefined | redefine_test_helpers.js:27-33 | an absent override key is captured as `undefined`; after the round trip it is present and reads `undefined`, rather than being deleted |
| RedefineTestHelpers.RestoreIdempotent | redefine_test_helpers.js:25-35 | running the restore a second time with the same key list and originals gives the state the first run produced |
| RedefineTestHelpers.RestoreUsesCurrentKeys | redefine_test_helpers.js:32-33 | a key added to `overrides` after `redefine` is set to `undefined` by restore and is present; a key no longer in `overrides` is not touched |
| RedefineTestHelpers.RedefinedRestores | redefine_test_helpers.js:72-76 | when `fn` returns, every override key is an own property holding its value from before `redefined`, and every other key keeps the presence and value `fn` left there |
| RedefineTestHelpers.RedefinedThrowKeepsOverrides | redefine_test_helpers.js:72-76 | when `fn` throws, no restore runs: the target is exactly what `fn` left, and an override key that `fn` did not touch still holds its override value |
| RedefineTestHelpers.OverrideExistingKey | redefine_test_helpers.js:24-35 | an illustrative session, with target `{a: 1, b: 2}` and overrides `{a: 99}`: `a` reads 99 and `b` reads 2 during the session; afterwards `a` reads 1 and `b` reads 2 |
| RedefineTestHelpers.OverrideAbsentKey | redefine_test_helpers.js:24-35 | an illustrative session, with target `{}` and overrides `{x: spy}`: `x` reads the spy during the session; afterwards `x` reads `undefined` and is an own property |
| RedefineTestHelpers.RecordDuringSession | redefine_test_helpers.js:72-76 | an illustrative `redefined` session, with an `fn` that records the value of `a` it sees: the recorded value is the override 99, the record survives the restore, and `a` is 1 again |
| RedefineTestHelpers.ThrowDuringSession | redefine_test_helpers.js:72-76 | an illustrative `redefined` session, with an `fn` that throws: the outcome is `Threw`, and `a` still holds the override 99 |

## Left out

- `redefineFilter` (redefine_test_helpers.js:46-55) registers the helpers with Mocha's `beforeEach`/`afterEach` and stores the closure on Mocha's per-test `this`. That hook behaviour belongs to the test framework, so it is not modelled.
- The `module.exports` line (redefine_test_helpers.js:79) is module plumbing.
- Property descriptors are not modelled: no getters, setters, non-writable or frozen properties. Reads do not follow the prototype chain. Special keys such as `__proto__` in the plain-object `originals` are not handled. These are runtime behaviours outside a plain property table.
- Key order is plain insertion order. `Object.keys` also lists integer-like keys first, in ascending order. That rule is not modelled, and neither are symbol keys or non-enumerable keys.
- The methods require `target` and `overrides` to be distinct objects. Passing one object as both is aliasing, which is not modelled.
- A `null` or `undefined` `target` or `overrides` makes the runtime throw `TypeError`. The model's non-null `JsObject` parameters rule this out. Primitive targets or overrides (which `Object.keys` and assignment accept without throwing) are not modelled.
- Redefined: `fn` changes only the target, by assignments and deletes. The model does not capture `fn` changing `overrides` or other objects, `fn`'s return value (which `redefined` discards), or the value `fn` throws.
- Numbers are modelled as mathematical integers. Floating point is not modelled.
