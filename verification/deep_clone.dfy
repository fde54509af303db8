/** `deepClone`: a recursive copy of arrays and plain objects built with `reduce`. */
module Clone {
  import opened Wrappers
  import opened JsValue
  import opened Seqs

  /** A value every object of which, at any depth, has each key once: what a JavaScript value
      always is, and what makes `input[key]` find the property `key` was listed for. */
  predicate WellFormed(v: Js)
  {
    match v
    case Arr(xs) => forall i :: 0 <= i < |xs| ==> WellFormed(xs[i])
    case Obj(ps) => DistinctKeys(ps) && forall i :: 0 <= i < |ps| ==> WellFormed(ps[i].1)
    case _ => true
  }

  /** `deepClone(input)`: null and primitives come back as they are; an array or object is
      rebuilt from an empty one of the same kind, key by key in `Object.keys` order, each
      property a clone of the original's. */
  function DeepClone(v: Js): (r: Js)
    requires WellFormed(v)
    ensures r == v
    decreases v, 2
  {
    match v
    case Arr(xs) => Arr(CloneElems(v, 0, []))
    case Obj(ps) => Obj(CloneProps(v, 0, []))
    case _ => v
  }

  /** The `reduce` over an array's indices from `i` on, `acc` being the copy of the first `i`
      elements: `acc[key] = deepClone(input[key])` appends the next element. */
  function CloneElems(v: Js, i: nat, acc: seq<Js>): (r: seq<Js>)
    requires v.Arr? && WellFormed(v) && i <= |v.elems| && acc == v.elems[..i]
    ensures r == v.elems
    decreases v, 1, |v.elems| - i
  {
    if i == |v.elems| then acc
    else
      assert v.elems[i] in v.elems;
      CloneElems(v, i + 1, acc + [DeepClone(v.elems[i])])
  }

  /** The `reduce` over an object's keys from position `i` on, `acc` holding the properties
      copied so far: `acc[key] = deepClone(input[key])` adds the next key with a cloned value. */
  function CloneProps(v: Js, i: nat, acc: seq<(string, Js)>): (r: seq<(string, Js)>)
    requires v.Obj? && WellFormed(v) && i <= |v.props| && acc == v.props[..i]
    ensures r == v.props
    decreases v, 1, |v.props| - i
  {
    if i == |v.props| then acc
    else
      var ps := v.props;
      var key := Keys(ps)[i];
      assert ps[i] in ps;
      assert Keys(ps)[..i] == Keys(acc);
      assert key !in Keys(acc);
      IndexOfUnique(Keys(ps), key, i);
      assert Get(ps, key) == Some(ps[i].1);
      assert ps[..i + 1] == acc + [(key, ps[i].1)];
      CloneProps(v, i + 1, Assign(acc, key, DeepClone(Get(ps, key).value)))
  }

  /** Assigning a well-formed value to a property keeps an object well formed. */
  lemma AssignWellFormed(ps: seq<(string, Js)>, k: string, v: Js)
    requires WellFormed(Obj(ps)) && WellFormed(v)
    ensures WellFormed(Obj(Assign(ps, k, v)))
  {
    AssignDistinct(ps, k, v);
    var r := Assign(ps, k, v);
    forall i | 0 <= i < |r|
      ensures WellFormed(r[i].1)
    {
      assert r[i].1 == v || r[i] == ps[i];
    }
  }
}
