/** Sequence helpers shared by the JavaScript object model, the query encoder and the grid:
    joining and splitting on a separator (Array.prototype.join, String.prototype.split) and
    keeping the elements that satisfy a predicate (Array.prototype.filter). */
module Seqs {

  /** The position of the first occurrence of `x` in `s`. */
  function IndexOf<T(==)>(s: seq<T>, x: T): (i: nat)
    requires x in s
    ensures i < |s| && s[i] == x && x !in s[..i]
  {
    if s[0] == x then 0
    else
      var j := IndexOf(s[1..], x);
      assert s[..j + 1] == [s[0]] + s[1..][..j];
      j + 1
  }

  /** The first occurrence is the only one before any later occurrence. */
  lemma IndexOfUnique<T>(s: seq<T>, x: T, i: nat)
    requires i < |s| && s[i] == x && x !in s[..i]
    ensures IndexOf(s, x) == i
  {
  }

  /** `parts` with `sep` between neighbours (Array.prototype.join). */
  function Join<T>(parts: seq<seq<T>>, sep: T): seq<T>
  {
    if |parts| == 0 then []
    else if |parts| == 1 then parts[0]
    else parts[0] + [sep] + Join(parts[1..], sep)
  }

  /** `s` cut at every `sep` (String.prototype.split with a one-element separator); an
      input without `sep` gives one part, so the result is never empty. */
  function Split<T(==)>(s: seq<T>, sep: T): (parts: seq<seq<T>>)
    ensures |parts| >= 1
    ensures forall k :: 0 <= k < |parts| ==> sep !in parts[k]
    decreases |s|
  {
    if sep in s then
      var i := IndexOf(s, sep);
      [s[..i]] + Split(s[i + 1..], sep)
    else [s]
  }

  /** Splitting undoes joining when no part contains the separator. */
  lemma {:induction false} SplitJoin<T>(parts: seq<seq<T>>, sep: T)
    requires |parts| >= 1
    requires forall k :: 0 <= k < |parts| ==> sep !in parts[k]
    ensures Split(Join(parts, sep), sep) == parts
  {
    if |parts| > 1 {
      var s := Join(parts, sep);
      var n := |parts[0]|;
      assert s == parts[0] + [sep] + Join(parts[1..], sep);
      assert s[..n] == parts[0];
      IndexOfUnique(s, sep, n);
      assert s[n + 1..] == Join(parts[1..], sep);
      SplitJoin(parts[1..], sep);
      assert [parts[0]] + parts[1..] == parts;
    }
  }

  /** `s` cut at its first `sep`: the part before and the part after; without `sep`, all
      of `s` and nothing. */
  function SplitFirst<T(==)>(s: seq<T>, sep: T): (r: (seq<T>, seq<T>))
    ensures sep !in r.0
    ensures sep in s ==> s == r.0 + [sep] + r.1
    ensures sep !in s ==> r == (s, [])
  {
    if sep in s then
      var i := IndexOf(s, sep);
      assert s == s[..i] + [sep] + s[i + 1..];
      (s[..i], s[i + 1..])
    else (s, [])
  }

  /** Cutting `a + [sep] + b` at the first `sep` gives `a` and `b` back when `a` holds no `sep`. */
  lemma SplitFirstConcat<T>(a: seq<T>, sep: T, b: seq<T>)
    requires sep !in a
    ensures SplitFirst(a + [sep] + b, sep) == (a, b)
  {
    var s := a + [sep] + b;
    assert s[..|a|] == a;
    IndexOfUnique(s, sep, |a|);
    assert s[|a| + 1..] == b;
  }

  /** The elements of `s` that satisfy `f`, in their order (Array.prototype.filter). */
  function Filter<T>(f: T -> bool, s: seq<T>): (r: seq<T>)
    ensures |r| <= |s|
    ensures forall x :: x in r ==> x in s && f(x)
  {
    if s == [] then []
    else (if f(s[0]) then [s[0]] else []) + Filter(f, s[1..])
  }

  /** Filtering a concatenation filters each side, which keeps the order. */
  lemma {:induction false} FilterAppend<T>(f: T -> bool, a: seq<T>, b: seq<T>)
    ensures Filter(f, a + b) == Filter(f, a) + Filter(f, b)
  {
    if a == [] {
      assert a + b == b;
    } else {
      assert (a + b)[0] == a[0];
      assert (a + b)[1..] == a[1..] + b;
      FilterAppend(f, a[1..], b);
    }
  }

  /** A filter every element passes keeps the whole sequence. */
  lemma {:induction false} FilterAll<T>(f: T -> bool, s: seq<T>)
    requires forall i :: 0 <= i < |s| ==> f(s[i])
    ensures Filter(f, s) == s
  {
    if s != [] {
      FilterAll(f, s[1..]);
    }
  }

  /** Filtering out the one occurrence of `x` removes it where it stands; the other elements
      keep their order. */
  /** A sequence is its part before `i`, its element at `i`, and its part after `i`. */
  lemma SplitAt<T>(s: seq<T>, i: nat)
    requires i < |s|
    ensures s == s[..i] + [s[i]] + s[i + 1..]
  {
  }

  lemma RemoveInPlace<T>(f: T -> bool, s: seq<T>, x: T)
    requires Distinct(s) && x in s
    requires forall i :: 0 <= i < |s| ==> (f(s[i]) <==> s[i] != x)
    ensures Filter(f, s) == s[..IndexOf(s, x)] + s[IndexOf(s, x) + 1..]
  {
    var i := IndexOf(s, x);
    var front, back := s[..i], s[i + 1..];
    SplitAt(s, i);
    assert !f(s[i]);
    assert [x][1..] == [];
    assert Filter(f, [x]) == [];
    forall k | 0 <= k < |front|
      ensures f(front[k])
    {
      assert front[k] == s[k];
    }
    FilterAll(f, front);
    forall k | 0 <= k < |back|
      ensures f(back[k])
    {
      assert back[k] == s[i + 1 + k];
    }
    FilterAll(f, back);
    FilterAppend(f, front, [x]);
    FilterAppend(f, front + [x], back);
    assert Filter(f, front + [x]) == front;
  }

  /** Every element that satisfies `f` is kept. */
  lemma {:induction false} FilterKeeps<T>(f: T -> bool, s: seq<T>, i: nat)
    requires i < |s| && f(s[i])
    ensures s[i] in Filter(f, s)
  {
    if i > 0 {
      FilterKeeps(f, s[1..], i - 1);
    }
  }

  /** The filter is empty exactly when no element satisfies `f`. */
  lemma FilterEmpty<T>(f: T -> bool, s: seq<T>)
    ensures Filter(f, s) == [] <==> forall i :: 0 <= i < |s| ==> !f(s[i])
  {
    if exists i :: 0 <= i < |s| && f(s[i]) {
      var i :| 0 <= i < |s| && f(s[i]);
      FilterKeeps(f, s, i);
    }
  }

  /** No element occurs twice. */
  predicate Distinct<T(==)>(s: seq<T>)
  {
    forall i, j :: 0 <= i < j < |s| ==> s[i] != s[j]
  }

  /** Filtering keeps a sequence free of repetitions. */
  lemma {:induction false} FilterDistinct<T>(f: T -> bool, s: seq<T>)
    requires Distinct(s)
    ensures Distinct(Filter(f, s))
  {
    if s != [] {
      FilterDistinct(f, s[1..]);
      assert s[0] !in s[1..];
      assert s[0] !in Filter(f, s[1..]);
    }
  }

  /** `xs` with later repetitions removed: every element at the place it first appears. */
  function Dedup<T(==)>(xs: seq<T>): (r: seq<T>)
    ensures forall x :: x in r ==> x in xs
    ensures forall x :: x in xs ==> x in r
    ensures forall i, j :: 0 <= i < j < |r| ==> r[i] != r[j]
  {
    if xs == [] then []
    else
      var d := Dedup(xs[..|xs| - 1]);
      assert xs == xs[..|xs| - 1] + [xs[|xs| - 1]];
      if xs[|xs| - 1] in d then d else d + [xs[|xs| - 1]]
  }

  /** Removing repetitions from a prefix without any leaves it alone, and the rest follows it. */
  lemma {:induction false} DedupDistinctPrefix<T>(a: seq<T>, b: seq<T>)
    requires forall i, j :: 0 <= i < j < |a| ==> a[i] != a[j]
    ensures |Dedup(a + b)| >= |a| && Dedup(a + b)[..|a|] == a
  {
    if b == [] {
      assert a + b == a;
      DedupDistinct(a);
    } else {
      assert (a + b)[..|a + b| - 1] == a + b[..|b| - 1];
      DedupDistinctPrefix(a, b[..|b| - 1]);
    }
  }

  /** A sequence without repetitions is its own Dedup. */
  lemma {:induction false} DedupDistinct<T>(a: seq<T>)
    requires forall i, j :: 0 <= i < j < |a| ==> a[i] != a[j]
    ensures Dedup(a) == a
  {
    if a != [] {
      var init := a[..|a| - 1];
      DedupDistinct(init);
      assert a[|a| - 1] !in init;
      assert init + [a[|a| - 1]] == a;
    }
  }
}
