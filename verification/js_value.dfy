/** JavaScript values as the grid code handles them, the ECMAScript conversions it relies on
    (truthiness, `??`, ToString), and plain objects as ordered property lists. */
module JsValue {
  import opened Wrappers
  import opened Seqs

  /** A JavaScript value. Numbers are integers; an object is its own enumerable string-keyed
      properties in the order in which they were first assigned. */
  datatype Js =
    | Undefined
    | Null
    | Bool(b: bool)
    | Num(n: int)
    | Str(s: string)
    | Arr(elems: seq<Js>)
    | Obj(props: seq<(string, Js)>)

  /** The values an `if` or `&&` treats as true. */
  predicate Truthy(v: Js)
  {
    match v
    case Undefined => false
    case Null => false
    case Bool(b) => b
    case Num(n) => n != 0
    case Str(s) => s != ""
    case _ => true
  }

  /** The values for which `??` takes its right-hand side. */
  predicate IsNullish(v: Js)
  {
    v == Undefined || v == Null
  }

  function DigitChar(d: int): char
    requires 0 <= d < 10
  {
    "0123456789"[d]
  }

  /** The decimal digits of `n`, without leading zeros. */
  function NatToDecimal(n: nat): string
  {
    if n < 10 then [DigitChar(n)] else NatToDecimal(n / 10) + [DigitChar(n % 10)]
  }

  function IntToDecimal(n: int): string
  {
    if n < 0 then "-" + NatToDecimal(-n) else NatToDecimal(n)
  }

  /** ECMAScript ToString, as template literals, property keys and URLSearchParams apply it.
      An array prints its elements joined by commas, `null` and `undefined` as nothing. */
  function ToString(v: Js): string
  {
    match v
    case Undefined => "undefined"
    case Null => "null"
    case Bool(b) => if b then "true" else "false"
    case Num(n) => IntToDecimal(n)
    case Str(s) => s
    case Arr(xs) =>
      Join(seq(|xs|, i requires 0 <= i < |xs| => if IsNullish(xs[i]) then "" else ToString(xs[i])), ',')
    case Obj(_) => "[object Object]"
  }

  /** The keys of a property list, in order. */
  function Keys<V>(ps: seq<(string, V)>): (ks: seq<string>)
    ensures |ks| == |ps|
    ensures forall i :: 0 <= i < |ps| ==> ks[i] == ps[i].0
  {
    seq(|ps|, i requires 0 <= i < |ps| => ps[i].0)
  }

  /** No key occurs twice: what every JavaScript object satisfies. */
  predicate DistinctKeys<V>(ps: seq<(string, V)>)
  {
    forall i, j :: 0 <= i < j < |ps| ==> ps[i].0 != ps[j].0
  }

  /** Property lookup `o[k]` on a property list: the value of key `k`, if present. */
  function Get<V>(ps: seq<(string, V)>, k: string): (r: Option<V>)
    ensures r.Some? <==> k in Keys(ps)
  {
    if k in Keys(ps) then Some(ps[IndexOf(Keys(ps), k)].1) else None
  }

  /** Property assignment `o[k] = v`: an existing key keeps its place and takes the new value,
      a new key goes last. */
  function Assign<V>(ps: seq<(string, V)>, k: string, v: V): (r: seq<(string, V)>)
    ensures Keys(r) == if k in Keys(ps) then Keys(ps) else Keys(ps) + [k]
  {
    if k in Keys(ps) then ps[IndexOf(Keys(ps), k) := (k, v)] else ps + [(k, v)]
  }

  /** After `o[k] = v`, reading `k` gives `v` and reading any other key gives what it gave before. */
  lemma GetAssign<V>(ps: seq<(string, V)>, k: string, v: V, k': string)
    ensures Get(Assign(ps, k, v), k') == if k' == k then Some(v) else Get(ps, k')
  {
    var r := Assign(ps, k, v);
    if k in Keys(ps) {
      assert Keys(r) == Keys(ps);
    } else {
      if k' in Keys(ps) {
        var i := IndexOf(Keys(ps), k');
        assert Keys(r)[..i] == Keys(ps)[..i];
        IndexOfUnique(Keys(r), k', i);
      }
      if k' == k {
        assert Keys(r)[..|ps|] == Keys(ps);
        IndexOfUnique(Keys(r), k, |ps|);
      }
    }
  }

  /** Assignment keeps the keys distinct. */
  lemma AssignDistinct<V>(ps: seq<(string, V)>, k: string, v: V)
    requires DistinctKeys(ps)
    ensures DistinctKeys(Assign(ps, k, v))
  {
    var r := Assign(ps, k, v);
    assert forall i :: 0 <= i < |r| ==> r[i].0 == Keys(r)[i];
  }

  /** `o?.[k]`: the property of an object, `undefined` when it is absent or `o` is no object. */
  function Member(o: Js, k: string): Js
  {
    match o
    case Obj(ps) => (match Get(ps, k) case Some(v) => v case None => Undefined)
    case _ => Undefined
  }

  /** Copies every property of `src`, in order, into `target`: a `for...in` loop of assignments. */
  function Merge<V>(target: seq<(string, V)>, src: seq<(string, V)>): seq<(string, V)>
    decreases |src|
  {
    if src == [] then target else Merge(Assign(target, src[0].0, src[0].1), src[1..])
  }

  /** `q` laid over `p` up to position `j`: the state of the merge of `q` into `p` after `j` steps. */
  function Overlay<V>(p: seq<(string, V)>, q: seq<(string, V)>, j: nat): seq<(string, V)>
    requires j <= |q|
  {
    q[..j] + (if j < |p| then p[j..] else [])
  }

  /** One step of the merge: assigning the next property of `q` moves the overlay on by one. */
  lemma OverlayStep<V>(p: seq<(string, V)>, q: seq<(string, V)>, j: nat)
    requires j < |q| && |p| <= |q| && Keys(p) == Keys(q)[..|p|] && DistinctKeys(q)
    ensures Assign(Overlay(p, q, j), q[j].0, q[j].1) == Overlay(p, q, j + 1)
  {
    var acc := Overlay(p, q, j);
    var k := q[j].0;
    assert Keys(acc)[..j] == Keys(q)[..j];
    assert k !in Keys(q)[..j];
    if j < |p| {
      assert Keys(acc)[j] == p[j].0 == Keys(q)[..|p|][j] == k;
      IndexOfUnique(Keys(acc), k, j);
      assert acc[j := (k, q[j].1)] == Overlay(p, q, j + 1);
    } else {
      assert k !in Keys(acc);
      assert acc + [(k, q[j].1)] == Overlay(p, q, j + 1);
    }
  }

  lemma {:induction false} MergeOverlay<V>(p: seq<(string, V)>, q: seq<(string, V)>, j: nat)
    requires j <= |q| && |p| <= |q| && Keys(p) == Keys(q)[..|p|] && DistinctKeys(q)
    ensures Merge(Overlay(p, q, j), q[j..]) == q
    decreases |q| - j
  {
    if j == |q| {
      assert Overlay(p, q, j) == q;
    } else {
      OverlayStep(p, q, j);
      assert q[j..][1..] == q[j + 1..];
      MergeOverlay(p, q, j + 1);
    }
  }

  /** Merging an object whose keys begin with all of the target's keys, in the target's
      order, yields that object: merging an object into itself changes nothing, and
      merging `{...o, k: v}` into `o` is the assignment `o[k] = v`. */
  lemma MergeOntoPrefix<V>(p: seq<(string, V)>, q: seq<(string, V)>)
    requires |p| <= |q| && Keys(p) == Keys(q)[..|p|] && DistinctKeys(q)
    ensures Merge(p, q) == q
  {
    assert Overlay(p, q, 0) == p;
    MergeOverlay(p, q, 0);
  }
}
