/** The behaviour of an `llvm::SmallSetVector` as a value: a sequence that
    keeps insertion order and never holds an element twice. */
module SetVector {

  predicate NoDuplicates<T(==)>(s: seq<T>)
  {
    forall i, j :: 0 <= i < j < |s| ==> s[i] != s[j]
  }

  /** `insert(x)`: appends `x` unless it is already present. */
  function Inserted<T(==)>(s: seq<T>, x: T): (r: seq<T>)
    ensures x in r && |s| <= |r| && r[..|s|] == s
    ensures multiset(r) == if x in s then multiset(s) else multiset(s) + multiset{x}
    ensures NoDuplicates(s) ==> NoDuplicates(r)
  {
    if x in s then s else s + [x]
  }

  /** Inserting each element of `xs` in turn, starting from `s`. */
  function InsertAll<T(==)>(s: seq<T>, xs: seq<T>): seq<T>
    decreases |xs|
  {
    if xs == [] then s else Inserted(InsertAll(s, xs[..|xs| - 1]), xs[|xs| - 1])
  }

  /** The position of the first occurrence of `y` in `s`. */
  function FirstIndex<T(==)>(s: seq<T>, y: T): (i: nat)
    requires y in s
    ensures i < |s| && s[i] == y && y !in s[..i]
  {
    if s[0] == y then 0 else 1 + FirstIndex(s[1..], y)
  }

  lemma {:induction false} FirstIndexAppend<T>(w: seq<T>, x: T, y: T)
    requires y in w
    ensures FirstIndex(w + [x], y) == FirstIndex(w, y)
  {
    if w[0] != y {
      assert (w + [x])[1..] == w[1..] + [x];
      FirstIndexAppend(w[1..], x, y);
    }
  }

  /** Iteration order is first-insertion order: inserting the elements of
      `xs` into an empty set vector gives every element of `xs` exactly once,
      ordered by where it first occurs in `xs`. */
  lemma {:induction false} InsertionOrder<T>(xs: seq<T>)
    ensures NoDuplicates(InsertAll([], xs))
    ensures forall y :: y in InsertAll([], xs) <==> y in xs
    ensures forall i, j :: 0 <= i < j < |InsertAll([], xs)| ==>
              FirstIndex(xs, InsertAll([], xs)[i]) < FirstIndex(xs, InsertAll([], xs)[j])
  {
    if xs != [] {
      var w, x := xs[..|xs| - 1], xs[|xs| - 1];
      assert xs == w + [x];
      InsertionOrder(w);
      var r := InsertAll([], w);
      assert InsertAll([], xs) == Inserted(r, x);
      forall y | y in w
        ensures FirstIndex(xs, y) == FirstIndex(w, y)
      {
        FirstIndexAppend(w, x, y);
      }
      if x !in w {
        assert FirstIndex(xs, x) == |w|;
      }
    }
  }

  /** Inserting distinct elements gives them back in the order they were
      inserted. */
  lemma {:induction false} InsertDistinct<T>(xs: seq<T>)
    requires NoDuplicates(xs)
    ensures InsertAll([], xs) == xs
  {
    if xs != [] {
      var w := xs[..|xs| - 1];
      InsertDistinct(w);
      assert xs[|xs| - 1] !in w;
      assert w + [xs[|xs| - 1]] == xs;
    }
  }

  /** Inserting an element a second time changes nothing. */
  lemma InsertIdempotent<T>(s: seq<T>, x: T)
    ensures Inserted(Inserted(s, x), x) == Inserted(s, x)
  {
  }
}
