/**
  The fragment of JavaScript's object model that the override helpers rely on:
  values, an object's own enumerable string-keyed properties in insertion order
  (what `Object.keys` returns), property reads that yield `undefined` for a
  missing key, assignment and `delete`.
 */
module JsObjects {

  /** A JavaScript value. Functions, spies and other objects are references. */
  datatype Value = Undefined | Null | Bool(b: bool) | Num(n: int) | Str(s: string) | Ref(id: nat)

  /** The own properties of an object: names in insertion order, and their values. */
  datatype Obj = Obj(keys: seq<string>, props: map<string, Value>)

  predicate Distinct(s: seq<string>)
  {
    forall i, j :: 0 <= i < j < |s| ==> s[i] != s[j]
  }

  /** `keys` lists every own property exactly once. */
  ghost predicate WellFormed(o: Obj)
  {
    Distinct(o.keys) && forall k :: k in o.props <==> k in o.keys
  }

  /** `m[k]` on a plain table: a missing key reads as `undefined`. */
  function Lookup(m: map<string, Value>, k: string): (v: Value)
    ensures k in m ==> v == m[k]
    ensures v != Undefined ==> k in m
  {
    if k in m then m[k] else Undefined
  }

  /** `o[k]` */
  function Get(o: Obj, k: string): (v: Value)
    ensures Has(o, k) ==> v == o.props[k]
    ensures v != Undefined ==> Has(o, k)
  {
    Lookup(o.props, k)
  }

  /** `k in o`: the object has `k` as an own property (possibly holding `undefined`). */
  predicate Has(o: Obj, k: string)
    ensures WellFormed(o) ==> (Has(o, k) <==> k in o.keys)
  {
    k in o.props
  }

  /** The object literal `{}`. */
  function Empty(): (o: Obj)
    ensures WellFormed(o)
    ensures forall k :: !Has(o, k) && Get(o, k) == Undefined
  {
    Obj([], map[])
  }

  /** `o[k] = v`: an existing property keeps its place in the key order, a new one goes last. */
  function Put(o: Obj, k: string, v: Value): (r: Obj)
    ensures WellFormed(o) ==> WellFormed(r)
    ensures Has(r, k) && Get(r, k) == v
    ensures forall j :: j != k ==> (Has(r, j) <==> Has(o, j)) && Get(r, j) == Get(o, j)
    ensures Has(o, k) ==> r.keys == o.keys
    ensures !Has(o, k) ==> r.keys == o.keys + [k]
  {
    if k in o.props then Obj(o.keys, o.props[k := v]) else Obj(o.keys + [k], o.props[k := v])
  }

  /** `s` with every occurrence of `k` dropped, order otherwise kept. */
  function Without(s: seq<string>, k: string): (r: seq<string>)
    ensures forall x :: x in r <==> x in s && x != k
    ensures Distinct(s) ==> Distinct(r)
  {
    if s == [] then []
    else if s[0] == k then Without(s[1..], k)
    else
      assert Distinct(s) ==> s[0] !in s[1..] by {
        if Distinct(s) {
          forall i | 0 <= i < |s[1..]| ensures s[1..][i] != s[0] {
            assert s[1..][i] == s[i + 1];
          }
        }
      }
      [s[0]] + Without(s[1..], k)
  }

  /** Dropping `k` from a concatenation drops it from each part, so the keys that remain keep their relative order. */
  lemma {:induction false} WithoutConcat(a: seq<string>, b: seq<string>, k: string)
    ensures Without(a + b, k) == Without(a, k) + Without(b, k)
    decreases |a|
  {
    if a == [] {
      assert a + b == b;
    } else {
      assert (a + b)[0] == a[0];
      assert (a + b)[1..] == a[1..] + b;
      WithoutConcat(a[1..], b, k);
    }
  }

  /** `delete o[k]`: afterwards the key is absent, not merely `undefined`. */
  function Delete(o: Obj, k: string): (r: Obj)
    ensures WellFormed(o) ==> WellFormed(r)
    ensures !Has(r, k) && Get(r, k) == Undefined
    ensures forall j :: j != k ==> (Has(r, j) <==> Has(o, j)) && Get(r, j) == Get(o, j)
  {
    Obj(Without(o.keys, k), o.props - {k})
  }

  /** One side effect of arbitrary code on an object: an assignment or a `delete`. */
  datatype Effect = Assign(key: string, value: Value) | Remove(key: string)

  /** The object after one effect: only the property the effect names changes. */
  function Step(o: Obj, e: Effect): (r: Obj)
    ensures WellFormed(o) ==> WellFormed(r)
    ensures Has(r, e.key) <==> e.Assign?
    ensures Get(r, e.key) == if e.Assign? then e.value else Undefined
    ensures forall j :: j != e.key ==> (Has(r, j) <==> Has(o, j)) && Get(r, j) == Get(o, j)
  {
    match e
    case Assign(k, v) => Put(o, k, v)
    case Remove(k) => Delete(o, k)
  }

  /** The object after the effects `effs`, in order. */
  function Performed(o: Obj, effs: seq<Effect>): (r: Obj)
    ensures WellFormed(o) ==> WellFormed(r)
    decreases |effs|
  {
    if effs == [] then o else Step(Performed(o, effs[..|effs| - 1]), effs[|effs| - 1])
  }

  /** No effect in `effs` touches property `k`. */
  predicate Untouched(effs: seq<Effect>, k: string)
  {
    forall i :: 0 <= i < |effs| ==> effs[i].key != k
  }

  /** Effects that never name `k` leave `k` as it was, present or absent. */
  lemma {:induction false} PerformedFrame(o: Obj, effs: seq<Effect>, k: string)
    requires Untouched(effs, k)
    ensures Has(Performed(o, effs), k) <==> Has(o, k)
    ensures Get(Performed(o, effs), k) == Get(o, k)
    decreases |effs|
  {
    if effs != [] {
      var init := effs[..|effs| - 1];
      assert Untouched(init, k) by {
        forall i | 0 <= i < |init| ensures init[i].key != k {
          assert init[i] == effs[i];
        }
      }
      PerformedFrame(o, init, k);
      assert effs[|effs| - 1].key != k;
    }
  }

  /** A JavaScript object whose own properties are updated in place. */
  class JsObject {
    var keys: seq<string>
    var props: map<string, Value>

    function State(): Obj
      reads this
    {
      Obj(keys, props)
    }

    ghost predicate Valid()
      reads this
    {
      WellFormed(State())
    }

    /** `{}` */
    constructor ()
      ensures Valid() && State() == Empty()
    {
      keys := [];
      props := map[];
    }

    /** `this[k] = v` */
    method Write(k: string, v: Value)
      requires Valid()
      modifies this
      ensures Valid()
      ensures State() == Put(old(State()), k, v)
    {
      if k !in props {
        keys := keys + [k];
      }
      props := props[k := v];
    }

    /** `delete this[k]` */
    method Erase(k: string)
      requires Valid()
      modifies this
      ensures Valid()
      ensures State() == Delete(old(State()), k)
    {
      keys := Without(keys, k);
      props := props - {k};
    }

    /** Carries out one effect. */
    method Do(e: Effect)
      requires Valid()
      modifies this
      ensures Valid()
      ensures State() == Step(old(State()), e)
    {
      match e {
        case Assign(k, v) => Write(k, v);
        case Remove(k) => Erase(k);
      }
    }

    /** Carries out the effects `effs` one after another. */
    method Perform(effs: seq<Effect>)
      requires Valid()
      modifies this
      ensures Valid()
      ensures State() == Performed(old(State()), effs)
    {
      var i := 0;
      while i < |effs|
        invariant 0 <= i <= |effs|
        invariant Valid()
        invariant State() == Performed(old(State()), effs[..i])
      {
        PerformedStep(old(State()), effs, i);
        Do(effs[i]);
        i := i + 1;
      }
      assert effs[..i] == effs;
    }
  }

  /** One more effect extends `Performed` by one `Step`. */
  lemma PerformedStep(o: Obj, effs: seq<Effect>, i: nat)
    requires i < |effs|
    ensures Performed(o, effs[..i + 1]) == Step(Performed(o, effs[..i]), effs[i])
  {
    assert effs[..i + 1][..i] == effs[..i];
  }
}
