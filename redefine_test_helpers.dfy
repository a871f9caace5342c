/**
  The override manager: `redefine` snapshots the current values of the
  overridden properties of a target object, writes the overrides onto it and
  hands back a restore closure; `redefined` applies the overrides, runs a
  callback and restores.
 */
module RedefineTestHelpers {
  import opened JsObjects

  /** `o` after `o[k] = src[k]` for each `k` of `ks`, in order; `src` reads missing keys as `undefined`. */
  function AssignEach(o: Obj, ks: seq<string>, src: map<string, Value>): (r: Obj)
    ensures WellFormed(o) ==> WellFormed(r)
    decreases |ks|
  {
    if ks == [] then o
    else Put(AssignEach(o, ks[..|ks| - 1], src), ks[|ks| - 1], Lookup(src, ks[|ks| - 1]))
  }

  /** The `originals` table: for each key of `ks`, what `o` held there. */
  function Captured(o: Obj, ks: seq<string>): (originals: map<string, Value>)
    ensures forall k :: k in originals <==> k in ks
    ensures forall k :: Lookup(originals, k) == if k in ks then Get(o, k) else Undefined
  {
    map k | k in ks :: Get(o, k)
  }

  /** After assigning each key of `ks` from `src`, a key of `ks` reads as its `src` value and every other key is as it was. */
  lemma {:induction false} AssignEachGet(o: Obj, ks: seq<string>, src: map<string, Value>, k: string)
    ensures Get(AssignEach(o, ks, src), k) == if k in ks then Lookup(src, k) else Get(o, k)
    ensures Has(AssignEach(o, ks, src), k) <==> Has(o, k) || k in ks
    decreases |ks|
  {
    if ks != [] {
      var init := ks[..|ks| - 1];
      AssignEachGet(o, init, src, k);
      assert k in ks <==> k in init || k == ks[|ks| - 1] by {
        assert ks == init + [ks[|ks| - 1]];
      }
    }
  }

  /** Assigning keys that are already own properties leaves the key order as it was. */
  lemma {:induction false} AssignEachPresentKeys(o: Obj, ks: seq<string>, src: map<string, Value>)
    requires forall k :: k in ks ==> Has(o, k)
    ensures AssignEach(o, ks, src).keys == o.keys
    decreases |ks|
  {
    if ks != [] {
      var init := ks[..|ks| - 1];
      var last := ks[|ks| - 1];
      assert forall k :: k in init ==> k in ks;
      AssignEachPresentKeys(o, init, src);
      AssignEachGet(o, init, src, last);
    }
  }

  /** Assigning one more key extends the fold by one `Put`. */
  lemma AssignEachStep(o: Obj, ks: seq<string>, i: nat, src: map<string, Value>)
    requires i < |ks|
    ensures AssignEach(o, ks[..i + 1], src) == Put(AssignEach(o, ks[..i], src), ks[i], Lookup(src, ks[i]))
  {
    assert ks[..i + 1][..i] == ks[..i];
  }

  /** One step of the capture-and-apply loop: key `ks[i]` was not written by the earlier steps, so it still holds its value from `o`. */
  lemma CaptureStep(o: Obj, ks: seq<string>, i: nat, src: map<string, Value>)
    requires Distinct(ks) && i < |ks|
    ensures Get(AssignEach(o, ks[..i], src), ks[i]) == Get(o, ks[i])
    ensures Captured(o, ks[..i + 1]) == Captured(o, ks[..i])[ks[i] := Get(o, ks[i])]
  {
    FreshKey(ks, i);
    AssignEachGet(o, ks[..i], src, ks[i]);
    CapturedSnoc(o, ks[..i], ks[i]);
    assert ks[..i + 1] == ks[..i] + [ks[i]];
  }

  /** In a list of distinct keys, `ks[i]` does not occur before position `i`. */
  lemma FreshKey(ks: seq<string>, i: nat)
    requires Distinct(ks) && i < |ks|
    ensures ks[i] !in ks[..i]
  {
    forall j | 0 <= j < i ensures ks[..i][j] != ks[i] {
      assert ks[..i][j] == ks[j];
    }
  }

  /** Capturing one more key adds that key's current value to the table. */
  lemma CapturedSnoc(o: Obj, ks: seq<string>, k: string)
    ensures Captured(o, ks + [k]) == Captured(o, ks)[k := Get(o, k)]
  {
    assert forall j :: j in ks + [k] <==> j in ks || j == k;
  }

  /** The key order of `o` is kept as a prefix: assignment only appends new keys. */
  lemma {:induction false} AssignEachKeepsOrder(o: Obj, ks: seq<string>, src: map<string, Value>)
    ensures o.keys <= AssignEach(o, ks, src).keys
    decreases |ks|
  {
    if ks != [] {
      AssignEachKeepsOrder(o, ks[..|ks| - 1], src);
    }
  }

  /** Two object states with the same key order, the same own properties and the same values are equal. */
  lemma SameState(a: Obj, b: Obj)
    requires a.keys == b.keys
    requires forall k :: Has(a, k) <==> Has(b, k)
    requires forall k :: Get(a, k) == Get(b, k)
    ensures a == b
  {
    forall k ensures k in a.props <==> k in b.props {
      assert Has(a, k) <==> Has(b, k);
    }
    forall k | k in a.props ensures a.props[k] == b.props[k] {
      assert Has(b, k);
      assert a.props[k] == Get(a, k) == Get(b, k) == b.props[k];
    }
  }

  /** The restore closure returned by `redefine`. */
  class Restorer {
    const target: JsObject
    const overrides: JsObject
    /** Written only while `redefine` runs, so every call of the closure writes the same values. */
    const originals: map<string, Value>

    constructor (target: JsObject, overrides: JsObject, originals: map<string, Value>)
      ensures this.target == target && this.overrides == overrides && this.originals == originals
    {
      this.target := target;
      this.overrides := overrides;
      this.originals := originals;
    }

    /** `target[k] = originals[k]` for each key that `overrides` has NOW, in its current order. */
    method Restore()
      requires target.Valid() && overrides.Valid() && target != overrides
      modifies target
      ensures target.Valid()
      ensures target.State() == AssignEach(old(target.State()), overrides.keys, originals)
    {
      var ks := overrides.keys;
      var i := 0;
      while i < |ks|
        invariant 0 <= i <= |ks|
        invariant target.Valid()
        invariant target.State() == AssignEach(old(target.State()), ks[..i], originals)
      {
        AssignEachStep(old(target.State()), ks, i, originals);
        var k := ks[i];
        target.Write(k, Lookup(originals, k));
        i := i + 1;
      }
      assert ks[..i] == ks;
    }
  }

  /**
    `redefine(target, overrides)`: for each key of `overrides`, in order, copy
    `target[k]` into `originals` and write `overrides[k]` into `target`.
   */
  method Redefine(target: JsObject, overrides: JsObject) returns (restore: Restorer)
    requires target.Valid() && overrides.Valid() && target != overrides
    modifies target
    ensures target.Valid()
    ensures target.State() == AssignEach(old(target.State()), overrides.keys, overrides.props)
    ensures fresh(restore) && restore.target == target && restore.overrides == overrides
    ensures restore.originals == Captured(old(target.State()), overrides.keys)
  {
    ghost var t0 := target.State();
    var ks := overrides.keys;
    var originals: map<string, Value> := map[];
    var i := 0;
    while i < |ks|
      invariant 0 <= i <= |ks|
      invariant target.Valid()
      invariant target.State() == AssignEach(t0, ks[..i], overrides.props)
      invariant originals == Captured(t0, ks[..i])
    {
      AssignEachStep(t0, ks, i, overrides.props);
      CaptureStep(t0, ks, i, overrides.props);
      var k := ks[i];
      originals := originals[k := Get(target.State(), k)];
      target.Write(k, Get(overrides.State(), k));
      i := i + 1;
    }
    assert ks[..i] == ks;
    restore := new Restorer(target, overrides, originals);
  }

  /** How a call of `fn()` ends. */
  datatype Outcome = Returned | Threw

  /** What `fn` does, given the target state it observes: its effects on the target, then return or throw. */
  datatype Script = Script(effects: seq<Effect>, throws: bool)

  /** The target after `redefined(target, overrides, fn)`: restored only when `fn` returns. */
  function RedefinedState(t: Obj, ov: Obj, fn: Obj -> Script): (r: Obj)
    ensures WellFormed(t) ==> WellFormed(r)
  {
    var applied := AssignEach(t, ov.keys, ov.props);
    var run := fn(applied);
    var ran := Performed(applied, run.effects);
    if run.throws then ran else AssignEach(ran, ov.keys, Captured(t, ov.keys))
  }

  /**
    `redefined(target, overrides, fn)`: apply, run `fn`, restore, in sequence
    and without `finally`, so a throwing `fn` skips the restore and its
    exception reaches the caller.
   */
  method Redefined(target: JsObject, overrides: JsObject, fn: Obj -> Script) returns (outcome: Outcome)
    requires target.Valid() && overrides.Valid() && target != overrides
    modifies target
    ensures target.Valid()
    ensures outcome == if fn(AssignEach(old(target.State()), overrides.keys, overrides.props)).throws then Threw else Returned
    ensures target.State() == RedefinedState(old(target.State()), overrides.State(), fn)
  {
    var restore := Redefine(target, overrides);
    var run := fn(target.State());
    target.Perform(run.effects);
    if run.throws {
      outcome := Threw;
      return;
    }
    restore.Restore();
    outcome := Returned;
  }

  // ----- Properties of a session -----

  /** After `redefine`, each override key holds exactly its override value; every other key is untouched. */
  lemma ApplyOverrides(t: Obj, ov: Obj)
    ensures forall k :: k in ov.keys ==> Has(AssignEach(t, ov.keys, ov.props), k) && Get(AssignEach(t, ov.keys, ov.props), k) == Get(ov, k)
    ensures forall k :: k !in ov.keys ==> (Has(AssignEach(t, ov.keys, ov.props), k) <==> Has(t, k)) && Get(AssignEach(t, ov.keys, ov.props), k) == Get(t, k)
  {
    forall k {
      AssignEachGet(t, ov.keys, ov.props, k);
    }
  }

  /**
    Restoring from the values captured in state `t` gives every key of `ks`
    its value in `t`, whatever was written there in between (the state is
    now `s`); every other key keeps its value in `s`.
   */
  lemma RestoreOverwrites(t: Obj, ks: seq<string>, s: Obj)
    ensures forall k :: k in ks ==> Has(AssignEach(s, ks, Captured(t, ks)), k) && Get(AssignEach(s, ks, Captured(t, ks)), k) == Get(t, k)
    ensures forall k :: k !in ks ==> (Has(AssignEach(s, ks, Captured(t, ks)), k) <==> Has(s, k)) && Get(AssignEach(s, ks, Captured(t, ks)), k) == Get(s, k)
  {
    forall k {
      AssignEachGet(s, ks, Captured(t, ks), k);
    }
  }

  /**
    Round trip: `redefine` followed at once by the restore gives every key its
    value from before the call. The only trace left is that an override key
    that was absent is now an own property holding `undefined`; the old key
    order is kept, such new keys coming after it.
   */
  lemma RoundTrip(t: Obj, ov: Obj)
    ensures var r := AssignEach(AssignEach(t, ov.keys, ov.props), ov.keys, Captured(t, ov.keys));
      && (forall k :: Get(r, k) == Get(t, k))
      && (forall k :: Has(r, k) <==> Has(t, k) || k in ov.keys)
      && r.props == t.props + (map k | k in ov.keys && k !in t.props :: Undefined)
      && t.keys <= r.keys
  {
    var a := AssignEach(t, ov.keys, ov.props);
    var r := AssignEach(a, ov.keys, Captured(t, ov.keys));
    forall k ensures Get(r, k) == Get(t, k) && (Has(r, k) <==> Has(t, k) || k in ov.keys) && (k in ov.keys ==> Has(a, k)) {
      AssignEachGet(t, ov.keys, ov.props, k);
      AssignEachGet(a, ov.keys, Captured(t, ov.keys), k);
    }
    RestoredProps(t, ov.keys, r);
    AssignEachKeepsOrder(t, ov.keys, ov.props);
    AssignEachPresentKeys(a, ov.keys, Captured(t, ov.keys));
  }

  /** A state that agrees with `t` on every value and adds exactly the keys `ks` has `t`'s properties plus `undefined` ones. */
  lemma RestoredProps(t: Obj, ks: seq<string>, r: Obj)
    requires forall k :: Get(r, k) == Get(t, k)
    requires forall k :: Has(r, k) <==> Has(t, k) || k in ks
    ensures r.props == t.props + (map k | k in ks && k !in t.props :: Undefined)
  {
    var m := t.props + (map k | k in ks && k !in t.props :: Undefined);
    forall k ensures k in r.props <==> k in m {
      assert Has(r, k) <==> Has(t, k) || k in ks;
    }
    forall k | k in r.props ensures r.props[k] == m[k] {
      assert r.props[k] == Get(r, k) == Get(t, k);
    }
  }

  /** When every override key already was an own property of the target, the round trip restores the target exactly. */
  lemma RoundTripExact(t: Obj, ov: Obj)
    requires forall k :: k in ov.keys ==> Has(t, k)
    ensures AssignEach(AssignEach(t, ov.keys, ov.props), ov.keys, Captured(t, ov.keys)) == t
  {
    var a := AssignEach(t, ov.keys, ov.props);
    var r := AssignEach(a, ov.keys, Captured(t, ov.keys));
    ApplyOverrides(t, ov);
    RestoreOverwrites(t, ov.keys, a);
    AssignEachPresentKeys(t, ov.keys, ov.props);
    AssignEachPresentKeys(a, ov.keys, Captured(t, ov.keys));
    SameState(r, t);
  }

  /** A key the target lacked is captured as `undefined`; after the round trip it is present and reads `undefined`. */
  lemma AbsentKeyComesBackUndefined(t: Obj, ov: Obj, k: string)
    requires k in ov.keys && !Has(t, k)
    ensures Captured(t, ov.keys)[k] == Undefined
    ensures var r := AssignEach(AssignEach(t, ov.keys, ov.props), ov.keys, Captured(t, ov.keys));
      Has(r, k) && Get(r, k) == Undefined
  {
    RoundTrip(t, ov);
  }

  /** Calling the restore closure a second time leaves the state the first call produced. */
  lemma RestoreIdempotent(s: Obj, ks: seq<string>, originals: map<string, Value>)
    ensures AssignEach(AssignEach(s, ks, originals), ks, originals) == AssignEach(s, ks, originals)
  {
    var once := AssignEach(s, ks, originals);
    var twice := AssignEach(once, ks, originals);
    forall k ensures (k in ks ==> Has(once, k)) && (Has(twice, k) <==> Has(once, k)) && Get(twice, k) == Get(once, k) {
      AssignEachGet(s, ks, originals, k);
      AssignEachGet(once, ks, originals, k);
    }
    AssignEachPresentKeys(once, ks, originals);
    SameState(twice, once);
  }

  /**
    The restore follows the keys `overrides` has when it runs: a key added to
    `overrides` after `redefine` was never captured, so it is set to
    `undefined`; a key removed from `overrides` since is not restored.
   */
  lemma {:induction false} RestoreUsesCurrentKeys(t: Obj, ks0: seq<string>, s: Obj, ks: seq<string>, k: string)
    ensures k in ks && k !in ks0 ==>
      Has(AssignEach(s, ks, Captured(t, ks0)), k) && Get(AssignEach(s, ks, Captured(t, ks0)), k) == Undefined
    ensures k !in ks ==>
      (Has(AssignEach(s, ks, Captured(t, ks0)), k) <==> Has(s, k)) && Get(AssignEach(s, ks, Captured(t, ks0)), k) == Get(s, k)
  {
    AssignEachGet(s, ks, Captured(t, ks0), k);
  }

  /**
    If `fn` returns, every override key is an own property holding its value
    from before `redefined`; every other key keeps what `fn` left there,
    present or absent.
   */
  lemma RedefinedRestores(t: Obj, ov: Obj, fn: Obj -> Script)
    requires !fn(AssignEach(t, ov.keys, ov.props)).throws
    ensures var applied := AssignEach(t, ov.keys, ov.props);
      var ran := Performed(applied, fn(applied).effects);
      && (forall k :: k in ov.keys ==> Has(RedefinedState(t, ov, fn), k) && Get(RedefinedState(t, ov, fn), k) == Get(t, k))
      && (forall k :: k !in ov.keys ==> (Has(RedefinedState(t, ov, fn), k) <==> Has(ran, k)) && Get(RedefinedState(t, ov, fn), k) == Get(ran, k))
  {
    var applied := AssignEach(t, ov.keys, ov.props);
    var ran := Performed(applied, fn(applied).effects);
    assert RedefinedState(t, ov, fn) == AssignEach(ran, ov.keys, Captured(t, ov.keys));
    RestoreOverwrites(t, ov.keys, ran);
  }

  /**
    If `fn` throws, the restore never runs: the target is left as `fn` left it,
    so an override key that `fn` did not touch still holds its override value.
   */
  lemma RedefinedThrowKeepsOverrides(t: Obj, ov: Obj, fn: Obj -> Script)
    requires fn(AssignEach(t, ov.keys, ov.props)).throws
    ensures var applied := AssignEach(t, ov.keys, ov.props);
      && RedefinedState(t, ov, fn) == Performed(applied, fn(applied).effects)
      && forall k :: k in ov.keys && Untouched(fn(applied).effects, k) ==> Get(RedefinedState(t, ov, fn), k) == Get(ov, k)
  {
    var applied := AssignEach(t, ov.keys, ov.props);
    var effs := fn(applied).effects;
    assert RedefinedState(t, ov, fn) == Performed(applied, effs);
    ApplyOverrides(t, ov);
    forall k | k in ov.keys && Untouched(effs, k) ensures Get(Performed(applied, effs), k) == Get(ov, k) {
      PerformedFrame(applied, effs, k);
    }
  }

  // ----- Illustrative sessions -----

  /** `T = {a: 1, b: 2}`, overrides `{a: 99}`: during the session `a` is 99, afterwards 1 again; `b` stays 2. */
  method OverrideExistingKey() returns (during: (Value, Value), after: (Value, Value))
    ensures during == (Num(99), Num(2))
    ensures after == (Num(1), Num(2))
  {
    var t := new JsObject();
    t.Write("a", Num(1));
    t.Write("b", Num(2));
    var m := new JsObject();
    m.Write("a", Num(99));
    ghost var t0 := t.State();
    var restore := Redefine(t, m);
    ApplyOverrides(t0, m.State());
    during := (Get(t.State(), "a"), Get(t.State(), "b"));
    ghost var t1 := t.State();
    restore.Restore();
    RestoreOverwrites(t0, m.keys, t1);
    after := (Get(t.State(), "a"), Get(t.State(), "b"));
  }

  /** `T = {}`, overrides `{x: spy}`: during the session `x` is the spy; afterwards `x` reads `undefined` but is an own property. */
  method OverrideAbsentKey(spy: Value) returns (during: Value, after: Value, present: bool)
    ensures during == spy
    ensures after == Undefined && present
  {
    var t := new JsObject();
    var m := new JsObject();
    m.Write("x", spy);
    ghost var t0 := t.State();
    var restore := Redefine(t, m);
    ApplyOverrides(t0, m.State());
    during := Get(t.State(), "x");
    ghost var t1 := t.State();
    restore.Restore();
    RestoreOverwrites(t0, m.keys, t1);
    after := Get(t.State(), "x");
    present := "x" in t.props;
  }

  /**
    `redefined(T, {a: 99}, fn)` with `T = {a: 1}`, where `fn` records the value
    of `T.a` it sees into `T.seen` and returns: `fn` saw 99, its record
    survives, and `a` is 1 again.
   */
  method RecordDuringSession() returns (outcome: Outcome, seen: Value, a: Value)
    ensures outcome == Returned
    ensures seen == Num(99) && a == Num(1)
  {
    var t := new JsObject();
    t.Write("a", Num(1));
    var m := new JsObject();
    m.Write("a", Num(99));
    ghost var t0 := t.State();
    var fn := (o: Obj) => Script([Assign("seen", Get(o, "a"))], false);
    outcome := Redefined(t, m, fn);
    RecordedSession(t0, m.State(), fn);
    seen := Get(t.State(), "seen");
    a := Get(t.State(), "a");
  }

  /** The states behind `RecordDuringSession`. */
  lemma RecordedSession(t: Obj, ov: Obj, fn: Obj -> Script)
    requires Get(t, "a") == Num(1)
    requires ov.keys == ["a"] && Get(ov, "a") == Num(99)
    requires forall o :: fn(o) == Script([Assign("seen", Get(o, "a"))], false)
    ensures !fn(AssignEach(t, ov.keys, ov.props)).throws
    ensures Get(RedefinedState(t, ov, fn), "seen") == Num(99)
    ensures Get(RedefinedState(t, ov, fn), "a") == Num(1)
  {
    var applied := AssignEach(t, ov.keys, ov.props);
    ApplyOverrides(t, ov);
    var effs := fn(applied).effects;
    assert effs == [Assign("seen", Num(99))];
    assert Get(Performed(applied, effs), "seen") == Num(99) by {
      assert effs[..0] == [];
    }
    RedefinedRestores(t, ov, fn);
  }

  /** The same session with an `fn` that throws without writing anything: the exception escapes and `a` keeps the override 99. */
  method ThrowDuringSession() returns (outcome: Outcome, a: Value)
    ensures outcome == Threw
    ensures a == Num(99)
  {
    var t := new JsObject();
    t.Write("a", Num(1));
    var m := new JsObject();
    m.Write("a", Num(99));
    ghost var t0 := t.State();
    var fn := (o: Obj) => Script([], true);
    outcome := Redefined(t, m, fn);
    RedefinedThrowKeepsOverrides(t0, m.State(), fn);
    a := Get(t.State(), "a");
  }
}
