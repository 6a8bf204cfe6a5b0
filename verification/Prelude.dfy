/** Option, Result and the sequence operations shared by the models. */
module Prelude {

  datatype Option<+T> = None | Some(value: T)

  datatype Result<+T, +E> = Ok(value: T) | Err(error: E)

  ghost predicate NoDup<T>(s: seq<T>) {
    forall i, j :: 0 <= i < j < |s| ==> s[i] != s[j]
  }

  /** The `if !v.contains(&x) { v.push(x) }` idiom. */
  function AddNew<T(==)>(s: seq<T>, x: T): seq<T> {
    if x in s then s else s + [x]
  }

  function AddAll<T(==)>(s: seq<T>, xs: seq<T>): seq<T> {
    if xs == [] then s else AddNew(AddAll(s, xs[..|xs| - 1]), xs[|xs| - 1])
  }

  lemma AddAllStep<T>(s: seq<T>, xs: seq<T>, x: T)
    ensures AddAll(s, xs + [x]) == AddNew(AddAll(s, xs), x)
  {
    assert (xs + [x])[..|xs|] == xs;
  }

  /** `AddAll` adds exactly the new elements, after the old ones, and never duplicates. */
  lemma {:induction false} AddAllFacts<T>(s: seq<T>, xs: seq<T>)
    ensures s <= AddAll(s, xs)
    ensures forall x :: x in AddAll(s, xs) <==> x in s || x in xs
    ensures NoDup(s) ==> NoDup(AddAll(s, xs))
  {
    if xs != [] {
      var front, last := xs[..|xs| - 1], xs[|xs| - 1];
      AddAllFacts(s, front);
      assert xs == front + [last];
      var before := AddAll(s, front);
      assert last !in before ==> forall i :: 0 <= i < |before| ==> before[i] != last;
    }
  }

  /** The position of the first `x`, or the length. */
  function IndexOf<T(==)>(s: seq<T>, x: T): (i: nat)
    ensures i <= |s|
    ensures forall j :: 0 <= j < i ==> s[j] != x
    ensures i < |s| ==> s[i] == x
  {
    if s == [] || s[0] == x then 0 else 1 + IndexOf(s[1..], x)
  }

  lemma {:induction false} IndexOfUnique<T>(s: seq<T>, x: T, n: nat)
    requires n < |s| && s[n] == x && forall i :: 0 <= i < n ==> s[i] != x
    ensures IndexOf(s, x) == n
  {
    if n > 0 {
      IndexOfUnique(s[1..], x, n - 1);
    }
  }

  // ---- Picking what is there ----

  function OneOf<T>(offer: Option<T>): seq<T> {
    if offer.Some? then [offer.value] else []
  }

  /** What the offers hold, in order. */
  function Somes<T>(offers: seq<Option<T>>): seq<T> {
    if offers == [] then [] else Somes(offers[..|offers| - 1]) + OneOf(offers[|offers| - 1])
  }

  ghost predicate Ascending(places: seq<nat>) {
    forall k, l :: 0 <= k < l < |places| ==> places[k] < places[l]
  }

  /** `places` are, in ascending order, exactly the places of `offers` that hold something, and
      `values` is what they hold. */
  ghost predicate ListsAll<T(!new)>(values: seq<T>, offers: seq<Option<T>>, places: seq<nat>) {
    && |places| == |values| && Ascending(places)
    && (forall k :: 0 <= k < |places| ==> places[k] < |offers| && offers[places[k]] == Some(values[k]))
    && (forall i: nat :: i < |offers| && offers[i].Some? ==> i in places)
  }

  lemma {:induction false} SomesLists<T(!new)>(offers: seq<Option<T>>) returns (places: seq<nat>)
    ensures ListsAll(Somes(offers), offers, places)
  {
    if offers == [] {
      places := [];
    } else {
      var front, last := offers[..|offers| - 1], |offers| - 1;
      var before := SomesLists(front);
      assert offers == front + [offers[last]];
      places := before + if offers[last].Some? then [last] else [];
      forall i: nat | i < |offers| && offers[i].Some? ensures i in places {
        if i < last {
          assert front[i].Some?;
          assert i in before;
        }
      }
    }
  }

  lemma SomesOne<T>(offer: Option<T>)
    ensures Somes([offer]) == OneOf(offer)
  {
    assert [offer][..0] == [];
    assert Somes([offer]) == Somes([]) + OneOf(offer);
  }

  lemma {:induction false} SomesConcat<T>(a: seq<Option<T>>, b: seq<Option<T>>)
    ensures Somes(a + b) == Somes(a) + Somes(b)
  {
    if b == [] {
      assert a + b == a;
    } else {
      assert (a + b)[..|a + b| - 1] == a + b[..|b| - 1];
      SomesConcat(a, b[..|b| - 1]);
    }
  }

  lemma SomesFirst<T>(first: Option<T>, rest: seq<Option<T>>)
    ensures Somes([first] + rest) == OneOf(first) + Somes(rest)
  {
    SomesConcat([first], rest);
    SomesOne(first);
  }

  lemma {:induction false} SomesNone<T>(offers: seq<Option<T>>)
    ensures Somes(offers) == [] <==> forall i :: 0 <= i < |offers| ==> offers[i].None?
  {
    if offers != [] {
      SomesNone(offers[..|offers| - 1]);
    }
  }

  ghost predicate Falls(f: nat -> int, i: nat) {
    f(i + 1) <= f(i)
  }

  lemma {:induction false} NonIncreasing(f: nat -> int, n: nat)
    requires forall i: nat :: i < n ==> Falls(f, i)
    ensures f(n) <= f(0)
  {
    if n > 0 {
      NonIncreasing(f, n - 1);
      assert Falls(f, n - 1);
    }
  }

  lemma Associate<T>(a: seq<T>, b: seq<T>, c: seq<T>)
    ensures a + b + c == a + (b + c)
  {
  }
}
