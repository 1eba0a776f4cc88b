/**
 Two-sided associations between objects, as the entity classes maintain them.

 `OneToMany` is the pair of an owner's collection and an item's back-pointer (a book and its loans,
 a member and their reservations, ...). `ManyToMany` is a pair of collections (authors or
 categories and books). The two sides are not updated symmetrically, so the results say which
 side implies which, over every run, and exactly when the missing direction holds.
 */
module Associations {
  import opened Wrappers

  // ------------------------------------------------- collections by identity

  ghost predicate NoDuplicates<T>(s: seq<T>) {
    forall i, j :: 0 <= i < j < |s| ==> s[i] != s[j]
  }

  /** ArrayCollection::removeElement drops the first occurrence. */
  function RemoveFirst<T(==)>(s: seq<T>, x: T): seq<T> {
    if s == [] then [] else if s[0] == x then s[1..] else [s[0]] + RemoveFirst(s[1..], x)
  }

  function AddOnce<T(==)>(s: seq<T>, x: T): seq<T> {
    if x in s then s else s + [x]
  }

  lemma {:induction false} RemoveFirstMembers<T>(s: seq<T>, x: T)
    requires NoDuplicates(s)
    ensures NoDuplicates(RemoveFirst(s, x))
    ensures forall y :: y in RemoveFirst(s, x) <==> y in s && y != x
  {
    if s == [] {
    } else {
      assert s == [s[0]] + s[1..];
      assert s[0] !in s[1..];
      if s[0] != x {
        RemoveFirstMembers(s[1..], x);
        PrependFresh(s[0], RemoveFirst(s[1..], x));
      }
    }
  }

  lemma RemoveFirstMember<T>(s: seq<T>, x: T, y: T)
    requires NoDuplicates(s)
    ensures y in RemoveFirst(s, x) <==> y in s && y != x
  {
    RemoveFirstMembers(s, x);
  }

  lemma PrependFresh<T>(x: T, s: seq<T>)
    requires NoDuplicates(s) && x !in s
    ensures NoDuplicates([x] + s)
  {
  }

  /** The first occurrence goes; what stands before and after it stays, in order. */
  lemma {:induction false} RemoveFirstAt<T>(s: seq<T>, i: nat)
    requires i < |s| && s[i] !in s[..i]
    ensures RemoveFirst(s, s[i]) == s[..i] + s[i + 1..]
  {
    if i == 0 {
    } else {
      assert s[..i] == [s[0]] + s[1..][..i - 1];
      RemoveFirstAt(s[1..], i - 1);
      assert s[1..][i - 1 + 1..] == s[i + 1..];
    }
  }

  lemma {:induction false} RemoveFirstAbsent<T>(s: seq<T>, x: T)
    requires x !in s
    ensures RemoveFirst(s, x) == s
  {
    if s == [] {
    } else {
      RemoveFirstAbsent(s[1..], x);
    }
  }

  lemma RemovedIsGone<T>(s: seq<T>, x: T)
    ensures NoDuplicates(s) ==> x !in RemoveFirst(s, x)
    ensures x !in s ==> RemoveFirst(s, x) == s
  {
    if NoDuplicates(s) {
      RemoveFirstMember(s, x, x);
    }
    if x !in s {
      RemoveFirstAbsent(s, x);
    }
  }

  /** Adding an element that was not there and removing it again changes nothing. */
  lemma RemoveAdded<T>(s: seq<T>, x: T)
    requires x !in s
    ensures RemoveFirst(AddOnce(s, x), x) == s && RemoveFirst(s + [x], x) == s
  {
    var t := s + [x];
    assert t[..|s|] == s;
    RemoveFirstAt(t, |s|);
  }

  // ---------------------------------------------------------------- one to many

  datatype OneToMany<O, I> = OneToMany(coll: map<O, seq<I>>, back: map<I, Option<O>>)

  datatype Link<O, I> = Add(owner: O, item: I) | Remove(owner: O, item: I)

  ghost predicate Known<O, I>(g: OneToMany<O, I>, op: Link<O, I>) {
    op.owner in g.coll && op.item in g.back
  }

  /** `owner.add(item)` and `owner.remove(item)`. */
  ghost function Apply<O, I>(g: OneToMany<O, I>, op: Link<O, I>): (g': OneToMany<O, I>)
    requires Known(g, op)
    ensures g'.coll.Keys == g.coll.Keys && g'.back.Keys == g.back.Keys
  {
    var o, i := op.owner, op.item;
    match op
    case Add(_, _) =>
      if i in g.coll[o] then g
      else OneToMany(g.coll[o := g.coll[o] + [i]], g.back[i := Some(o)])
    case Remove(_, _) =>
      if i !in g.coll[o] then g
      else OneToMany(g.coll[o := RemoveFirst(g.coll[o], i)],
                     if g.back[i] == Some(o) then g.back[i := None] else g.back)
  }

  ghost predicate AllKnown<O, I>(g: OneToMany<O, I>, ops: seq<Link<O, I>>) {
    forall n :: 0 <= n < |ops| ==> Known(g, ops[n])
  }

  ghost function Run<O, I>(g: OneToMany<O, I>, ops: seq<Link<O, I>>): (g': OneToMany<O, I>)
    requires AllKnown(g, ops)
    ensures g'.coll.Keys == g.coll.Keys && g'.back.Keys == g.back.Keys
    decreases |ops|
  {
    if ops == [] then g else Apply(Run(g, ops[..|ops| - 1]), ops[|ops| - 1])
  }

  /** No collection has duplicates, and an item is in the collection of the owner it points to. */
  ghost predicate Consistent<O, I>(g: OneToMany<O, I>) {
    && (forall o :: o in g.coll ==> NoDuplicates(g.coll[o]))
    && (forall i :: i in g.back && g.back[i].Some? ==> PointsInto(g, i, g.back[i].value))
  }

  ghost predicate PointsInto<O, I>(g: OneToMany<O, I>, i: I, o: O) {
    o in g.coll && i in g.coll[o]
  }

  /** The other direction as well: an item in a collection points back to that owner. */
  ghost predicate Exact<O, I>(g: OneToMany<O, I>) {
    && Consistent(g)
    && forall o :: o in g.coll ==> AllPointTo(g, o)
  }

  ghost predicate AllPointTo<O, I>(g: OneToMany<O, I>, o: O)
    requires o in g.coll
  {
    forall i :: i in g.coll[o] ==> i in g.back && g.back[i] == Some(o)
  }

  lemma ApplyKeepsConsistent<O, I>(g: OneToMany<O, I>, op: Link<O, I>)
    requires Known(g, op) && Consistent(g)
    ensures Consistent(Apply(g, op))
  {
    var g' := Apply(g, op);
    RemoveFirstMembers(g.coll[op.owner], op.item);
    forall i | i in g'.back && g'.back[i].Some?
      ensures PointsInto(g', i, g'.back[i].value)
    {
      assert i != op.item ==> PointsInto(g, i, g.back[i].value);
    }
  }

  /** Over every run, on any number of owners and items, the back-pointer implies membership. */
  lemma {:induction false} RunKeepsConsistent<O, I>(g: OneToMany<O, I>, ops: seq<Link<O, I>>)
    requires AllKnown(g, ops) && Consistent(g)
    ensures Consistent(Run(g, ops))
    decreases |ops|
  {
    if ops == [] {
    } else {
      RunKeepsConsistent(g, ops[..|ops| - 1]);
      ApplyKeepsConsistent(Run(g, ops[..|ops| - 1]), ops[|ops| - 1]);
    }
  }

  /** The item is unowned, or already points to this owner. */
  ghost predicate Unclaimed<O, I>(g: OneToMany<O, I>, op: Link<O, I>)
    requires Known(g, op)
  {
    g.back[op.item].None? || g.back[op.item] == Some(op.owner)
  }

  /** One step keeps the two sides equivalent exactly when it does not take another owner's item. */
  lemma ApplyKeepsExactIff<O, I>(g: OneToMany<O, I>, op: Link<O, I>)
    requires Known(g, op) && Exact(g)
    ensures Exact(Apply(g, op)) <==> op.Remove? || Unclaimed(g, op)
  {
    var g', o, i := Apply(g, op), op.owner, op.item;
    ApplyKeepsConsistent(g, op);
    RemoveFirstMembers(g.coll[o], i);
    assert AllPointTo(g, o);
    if op.Add? && !Unclaimed(g, op) {
      var o' := g.back[i].value;
      assert PointsInto(g, i, o') && i in g'.coll[o'] && g'.back[i] == Some(o);
      assert !AllPointTo(g', o');
    } else {
      forall p | p in g'.coll
        ensures AllPointTo(g', p)
      {
        assert AllPointTo(g, p);
        forall x | x in g'.coll[p]
          ensures x in g'.back && g'.back[x] == Some(p)
        {
          if p == o && op.Add? && i !in g.coll[o] {
            assert g'.coll[p] == g.coll[o] + [i];
          }
          RemoveFirstMember(g.coll[o], i, x);
          assert x in g.coll[p] || (op.Add? && x == i && p == o);
        }
      }
    }
  }

  /** Every item is unclaimed at the moment the run adds it. */
  ghost predicate OnlyAddsUnclaimed<O, I>(g: OneToMany<O, I>, ops: seq<Link<O, I>>)
    requires AllKnown(g, ops)
    decreases |ops|
  {
    ops == [] ||
    var before := Run(g, ops[..|ops| - 1]);
    OnlyAddsUnclaimed(g, ops[..|ops| - 1]) && (ops[|ops| - 1].Add? ==> Unclaimed(before, ops[|ops| - 1]))
  }

  lemma {:induction false} RunKeepsExact<O, I>(g: OneToMany<O, I>, ops: seq<Link<O, I>>)
    requires AllKnown(g, ops) && Exact(g) && OnlyAddsUnclaimed(g, ops)
    ensures Exact(Run(g, ops))
    decreases |ops|
  {
    if ops == [] {
    } else {
      RunKeepsExact(g, ops[..|ops| - 1]);
      ApplyKeepsExactIff(Run(g, ops[..|ops| - 1]), ops[|ops| - 1]);
    }
  }

  /**
   `owner.add(item)` does not always make `item` point to `owner`: a stale entry in the collection
   turns the call into a no-op. It does so exactly when the item was not listed or pointed there already.
   */
  lemma AddSetsOwnerIff<O, I>(g: OneToMany<O, I>, o: O, i: I)
    requires Known(g, Add(o, i))
    ensures Apply(g, Add(o, i)).back[i] == Some(o) <==> i !in g.coll[o] || g.back[i] == Some(o)
  {
  }

  /** `owner.add(item)` lists the item once, at the end, and touches no other owner and no other item. */
  lemma AddLinks<O, I>(g: OneToMany<O, I>, o: O, i: I, p: O, j: I)
    requires Known(g, Add(o, i)) && p in g.coll && j in g.back
    ensures var g' := Apply(g, Add(o, i));
            && i in g'.coll[o] && g.coll[o] <= g'.coll[o] <= g.coll[o] + [i]
            && (NoDuplicates(g.coll[o]) ==> NoDuplicates(g'.coll[o]))
            && (p != o ==> g'.coll[p] == g.coll[p])
            && (j != i ==> g'.back[j] == g.back[j])
  {
  }

  /** Adding an item that was not listed and removing it again restores every collection; the item is unowned. */
  lemma AddThenRemove<O, I>(g: OneToMany<O, I>, o: O, i: I)
    requires Known(g, Add(o, i)) && i !in g.coll[o]
    ensures Apply(Apply(g, Add(o, i)), Remove(o, i)) == OneToMany(g.coll, g.back[i := None])
  {
    RemoveAdded(g.coll[o], i);
  }

  /** Such a stale entry is reachable: add to one owner, add to a second, add to the first again. */
  lemma AddBackIsIgnored<O, I>(g: OneToMany<O, I>, a: O, b: O, i: I)
    requires Known(g, Add(a, i)) && Known(g, Add(b, i)) && a != b
    requires i !in g.coll[a] && i !in g.coll[b]
    ensures Run(g, [Add(a, i), Add(b, i), Add(a, i)]).back[i] == Some(b)
  {
    var ops := [Add(a, i), Add(b, i), Add(a, i)];
    assert ops[..2] == [Add(a, i), Add(b, i)] && ops[..2][..1] == [Add(a, i)] && ops[..2][..1][..0] == [];
    var g1 := Apply(g, Add(a, i));
    var g2 := Apply(g1, Add(b, i));
    assert Run(g, ops[..2][..1]) == g1;
    assert Run(g, ops[..2]) == g2;
    assert Run(g, ops) == Apply(g2, Add(a, i)) == g2;
  }

  /**
   Removing an item clears the link to this owner, and to no other owner it has moved to; every other
   item stays listed and keeps its owner.
   */
  lemma RemoveUnlinks<O, I>(g: OneToMany<O, I>, o: O, i: I, j: I)
    requires Known(g, Remove(o, i)) && Consistent(g) && j in g.back
    ensures var g' := Apply(g, Remove(o, i));
            && i !in g'.coll[o] && g'.back[i] != Some(o)
            && (g.back[i] != Some(o) ==> g'.back == g.back)
            && (forall p :: p in g.coll && p != o ==> g'.coll[p] == g.coll[p])
            && (j != i ==> g'.back[j] == g.back[j] && (j in g'.coll[o] <==> j in g.coll[o]))
  {
    RemoveFirstMembers(g.coll[o], i);
    RemoveFirstMember(g.coll[o], i, j);
    assert g.back[i] == Some(o) ==> PointsInto(g, i, o);
  }

  // --------------------------------------------------------------- many to many

  /** `inverse` is the author's (or category's) list of books, `owning` the book's list of authors. */
  datatype ManyToMany<A, B> = ManyToMany(inverse: map<A, seq<B>>, owning: map<B, seq<A>>)

  datatype Pairing<A, B> =
    | AddInverse(a: A, b: B)
    | RemoveInverse(a: A, b: B)
    | AddOwning(a: A, b: B)
    | RemoveOwning(a: A, b: B)

  ghost predicate KnownPair<A, B>(g: ManyToMany<A, B>, op: Pairing<A, B>) {
    op.a in g.inverse && op.b in g.owning
  }

  /** The inverse side drives the owning side; the owning side changes alone. */
  ghost function ApplyPair<A, B>(g: ManyToMany<A, B>, op: Pairing<A, B>): (g': ManyToMany<A, B>)
    requires KnownPair(g, op)
    ensures g'.inverse.Keys == g.inverse.Keys && g'.owning.Keys == g.owning.Keys
  {
    var a, b := op.a, op.b;
    match op
    case AddInverse(_, _) =>
      if b in g.inverse[a] then g
      else ManyToMany(g.inverse[a := g.inverse[a] + [b]], g.owning[b := AddOnce(g.owning[b], a)])
    case RemoveInverse(_, _) =>
      if b !in g.inverse[a] then g
      else ManyToMany(g.inverse[a := RemoveFirst(g.inverse[a], b)], g.owning[b := RemoveFirst(g.owning[b], a)])
    case AddOwning(_, _) => g.(owning := g.owning[b := AddOnce(g.owning[b], a)])
    case RemoveOwning(_, _) => g.(owning := g.owning[b := RemoveFirst(g.owning[b], a)])
  }

  ghost predicate AllKnownPairs<A, B>(g: ManyToMany<A, B>, ops: seq<Pairing<A, B>>) {
    forall n :: 0 <= n < |ops| ==> KnownPair(g, ops[n])
  }

  ghost function RunPairs<A, B>(g: ManyToMany<A, B>, ops: seq<Pairing<A, B>>): (g': ManyToMany<A, B>)
    requires AllKnownPairs(g, ops)
    ensures g'.inverse.Keys == g.inverse.Keys && g'.owning.Keys == g.owning.Keys
    decreases |ops|
  {
    if ops == [] then g else ApplyPair(RunPairs(g, ops[..|ops| - 1]), ops[|ops| - 1])
  }

  ghost predicate InInverse<A, B>(g: ManyToMany<A, B>, a: A, b: B) {
    a in g.inverse && b in g.inverse[a]
  }

  ghost predicate InOwning<A, B>(g: ManyToMany<A, B>, a: A, b: B) {
    b in g.owning && a in g.owning[b]
  }

  ghost predicate DuplicateFree<A, B>(g: ManyToMany<A, B>) {
    && (forall a :: a in g.inverse ==> NoDuplicates(g.inverse[a]))
    && (forall b :: b in g.owning ==> NoDuplicates(g.owning[b]))
  }

  /** Every inverse-side pair is present on the owning side. */
  ghost predicate Included<A, B>(g: ManyToMany<A, B>) {
    && DuplicateFree(g)
    && forall a, b :: a in g.inverse && b in g.inverse[a] ==> InOwning(g, a, b)
  }

  /** The two sides are exact inverses. */
  ghost predicate Mirrored<A, B>(g: ManyToMany<A, B>) {
    && Included(g)
    && forall a, b :: b in g.owning && a in g.owning[b] ==> InInverse(g, a, b)
  }

  lemma PairKeepsDuplicateFree<A, B>(g: ManyToMany<A, B>, op: Pairing<A, B>)
    requires KnownPair(g, op) && DuplicateFree(g)
    ensures DuplicateFree(ApplyPair(g, op))
  {
    RemoveFirstMembers(g.owning[op.b], op.a);
    RemoveFirstMembers(g.inverse[op.a], op.b);
  }

  /** The authors of book `b` other than `a`, and all other books, are the same in `g'`. */
  ghost predicate OwningBut<A, B>(g: ManyToMany<A, B>, g': ManyToMany<A, B>, a: A, b: B, x: A, y: B)
    requires b in g.owning && b in g'.owning
  {
    && (y in g.owning && y != b ==> y in g'.owning && g'.owning[y] == g.owning[y])
    && (x != a ==> (x in g'.owning[b] <==> x in g.owning[b]))
  }

  /** The books of author `a` other than `b`, and all other authors, are the same in `g'`. */
  ghost predicate InverseBut<A, B>(g: ManyToMany<A, B>, g': ManyToMany<A, B>, a: A, b: B, x: A, y: B)
    requires a in g.inverse && a in g'.inverse
  {
    && (x in g.inverse && x != a ==> x in g'.inverse && g'.inverse[x] == g.inverse[x])
    && (y != b ==> (y in g'.inverse[a] <==> y in g.inverse[a]))
  }

  /** From the book's side: the author is listed, at the end if new, and nothing else changes. */
  lemma AddOwningLinks<A, B>(g: ManyToMany<A, B>, a: A, b: B, x: A, y: B)
    requires KnownPair(g, AddOwning(a, b))
    ensures var g' := ApplyPair(g, AddOwning(a, b));
            && a in g'.owning[b] && g.owning[b] <= g'.owning[b] <= g.owning[b] + [a]
            && OwningBut(g, g', a, b, x, y) && g'.inverse == g.inverse
            && (DuplicateFree(g) ==> DuplicateFree(g'))
  {
    if DuplicateFree(g) {
      PairKeepsDuplicateFree(g, AddOwning(a, b));
    }
  }

  /** From the book's side: the author is no longer listed, whatever its own list says, and nothing else changes. */
  lemma RemoveOwningUnlinks<A, B>(g: ManyToMany<A, B>, a: A, b: B, x: A, y: B)
    requires KnownPair(g, RemoveOwning(a, b)) && DuplicateFree(g)
    ensures var g' := ApplyPair(g, RemoveOwning(a, b));
            && a !in g'.owning[b] && OwningBut(g, g', a, b, x, y) && g'.inverse == g.inverse && DuplicateFree(g')
  {
    PairKeepsDuplicateFree(g, RemoveOwning(a, b));
    RemoveFirstMember(g.owning[b], a, a);
    RemoveFirstMember(g.owning[b], a, x);
  }

  /** On the book's side, adding an author it did not list and removing it again restores both sides. */
  lemma AddThenRemoveOwning<A, B>(g: ManyToMany<A, B>, a: A, b: B)
    requires KnownPair(g, AddOwning(a, b)) && a !in g.owning[b]
    ensures ApplyPair(ApplyPair(g, AddOwning(a, b)), RemoveOwning(a, b)) == g
  {
    RemoveAdded(g.owning[b], a);
  }

  /** From the author's side: a book not yet listed is listed on both sides; a listed one changes nothing. */
  lemma AddInverseLinks<A, B>(g: ManyToMany<A, B>, a: A, b: B, x: A, y: B)
    requires KnownPair(g, AddInverse(a, b))
    ensures var g' := ApplyPair(g, AddInverse(a, b));
            if b in g.inverse[a] then g' == g
            else && g'.inverse[a] == g.inverse[a] + [b]
                 && a in g'.owning[b] && g.owning[b] <= g'.owning[b] <= g.owning[b] + [a]
                 && InverseBut(g, g', a, b, x, y) && OwningBut(g, g', a, b, x, y)
  {
  }

  /** From the author's side: a listed book is taken off both sides; an unlisted one changes nothing. */
  lemma RemoveInverseUnlinks<A, B>(g: ManyToMany<A, B>, a: A, b: B, x: A, y: B)
    requires KnownPair(g, RemoveInverse(a, b)) && DuplicateFree(g)
    ensures var g' := ApplyPair(g, RemoveInverse(a, b));
            if b !in g.inverse[a] then g' == g
            else && b !in g'.inverse[a] && a !in g'.owning[b]
                 && InverseBut(g, g', a, b, x, y) && OwningBut(g, g', a, b, x, y)
  {
    RemoveFirstMember(g.owning[b], a, a);
    RemoveFirstMember(g.owning[b], a, x);
    RemoveFirstMember(g.inverse[a], b, b);
    RemoveFirstMember(g.inverse[a], b, y);
  }

  /** On the author's side, adding a book that neither side had and removing it again restores both. */
  lemma AddThenRemoveInverse<A, B>(g: ManyToMany<A, B>, a: A, b: B)
    requires KnownPair(g, AddInverse(a, b)) && b !in g.inverse[a] && a !in g.owning[b]
    ensures ApplyPair(ApplyPair(g, AddInverse(a, b)), RemoveInverse(a, b)) == g
  {
    RemoveAdded(g.owning[b], a);
    RemoveAdded(g.inverse[a], b);
  }

  /** A step keeps the inclusion unless it removes, from the owning side alone, a pair the inverse side has. */
  lemma PairKeepsIncludedIff<A, B>(g: ManyToMany<A, B>, op: Pairing<A, B>)
    requires KnownPair(g, op) && Included(g)
    ensures Included(ApplyPair(g, op)) <==> !(op.RemoveOwning? && op.b in g.inverse[op.a])
  {
    var g' := ApplyPair(g, op);
    PairKeepsDuplicateFree(g, op);
    if op.RemoveOwning? && op.b in g.inverse[op.a] {
      RemoveFirstMember(g.owning[op.b], op.a, op.a);
      assert op.b in g'.inverse[op.a] && !InOwning(g', op.a, op.b);
    } else {
      forall a, b | a in g'.inverse && b in g'.inverse[a]
        ensures InOwning(g', a, b)
      {
        RemoveFirstMember(g.inverse[op.a], op.b, b);
        RemoveFirstMember(g.owning[op.b], op.a, a);
        if b in g.inverse[a] {
          assert InOwning(g, a, b);
        }
      }
    }
  }

  /** A step keeps exact inverses exactly when the owning side is not changed alone. */
  lemma PairKeepsMirroredIff<A, B>(g: ManyToMany<A, B>, op: Pairing<A, B>)
    requires KnownPair(g, op) && Mirrored(g)
    ensures Mirrored(ApplyPair(g, op)) <==>
            && !(op.RemoveOwning? && op.b in g.inverse[op.a])
            && !(op.AddOwning? && op.b !in g.inverse[op.a])
  {
    var g' := ApplyPair(g, op);
    PairKeepsDuplicateFree(g, op);
    PairKeepsIncludedIff(g, op);
    if op.AddOwning? && op.b !in g.inverse[op.a] {
      assert op.a in g'.owning[op.b] && !InInverse(g', op.a, op.b);
    } else if Included(g') {
      forall a, b | b in g'.owning && a in g'.owning[b]
        ensures InInverse(g', a, b)
      {
        RemoveFirstMember(g.inverse[op.a], op.b, b);
        RemoveFirstMember(g.owning[op.b], op.a, a);
        if a in g.owning[b] {
          assert InInverse(g, a, b);
        }
      }
    }
  }

  /** Driven from the inverse side only, the two sides stay exact inverses over every run. */
  lemma {:induction false} InverseRunsStayMirrored<A, B>(g: ManyToMany<A, B>, ops: seq<Pairing<A, B>>)
    requires AllKnownPairs(g, ops) && Mirrored(g)
    requires forall n :: 0 <= n < |ops| ==> ops[n].AddInverse? || ops[n].RemoveInverse?
    ensures Mirrored(RunPairs(g, ops))
    decreases |ops|
  {
    if ops == [] {
    } else {
      InverseRunsStayMirrored(g, ops[..|ops| - 1]);
      PairKeepsMirroredIff(RunPairs(g, ops[..|ops| - 1]), ops[|ops| - 1]);
    }
  }

  /** With additions on the owning side as well, every inverse-side pair stays present there. */
  lemma {:induction false} MixedRunsStayIncluded<A, B>(g: ManyToMany<A, B>, ops: seq<Pairing<A, B>>)
    requires AllKnownPairs(g, ops) && Included(g)
    requires forall n :: 0 <= n < |ops| ==> !ops[n].RemoveOwning?
    ensures Included(RunPairs(g, ops))
    decreases |ops|
  {
    if ops == [] {
    } else {
      MixedRunsStayIncluded(g, ops[..|ops| - 1]);
      PairKeepsIncludedIff(RunPairs(g, ops[..|ops| - 1]), ops[|ops| - 1]);
    }
  }
}
