/**
 The entity classes and the methods that keep both sides of their associations. `contains` is
 by identity and `removeElement` drops the first occurrence. Each method is tied to its operation
 on the abstract association; what holds over every run is proved there.
 */
module ObjectGraph {
  import opened Wrappers
  import opened Associations

  class Emprunt {
    var id: Option<nat>
    var dateEmprunt: Option<int>
    var dateRetour: Option<int>
    var utilisateur: Utilisateur?
    var livre: Livre?

    constructor ()
      ensures id.None? && dateEmprunt.None? && dateRetour.None? && utilisateur == null && livre == null
    {
      id, dateEmprunt, dateRetour, utilisateur, livre := None, None, None, null, null;
    }
  }

  class Reservations {
    var id: Option<nat>
    var utilisateur: Utilisateur?
    var livre: Livre?

    constructor ()
      ensures id.None? && utilisateur == null && livre == null
    {
      id, utilisateur, livre := None, null, null;
    }
  }

  class Livre {
    var id: Option<nat>
    var auteurs: seq<Auteur>
    var categories: seq<Categorie>
    var emprunts: seq<Emprunt>
    var reservations: seq<Reservations>

    constructor ()
      ensures id.None? && auteurs == [] && categories == [] && emprunts == [] && reservations == []
    {
      id, auteurs, categories, emprunts, reservations := None, [], [], [], [];
    }

    method AddEmprunt(e: Emprunt, ghost books: set<Livre>, ghost loans: set<Emprunt>)
      requires this in books && e in loans
      modifies this`emprunts, e`livre
      ensures BookLoans(books, loans) == Apply(old(BookLoans(books, loans)), Add(this, e))
      ensures emprunts == if old(e in emprunts) then old(emprunts) else old(emprunts) + [e]
    {
      if e !in emprunts {
        emprunts := emprunts + [e];
        e.livre := this;
      }
    }

    method RemoveEmprunt(e: Emprunt, ghost books: set<Livre>, ghost loans: set<Emprunt>)
      requires this in books && e in loans
      modifies this`emprunts, e`livre
      ensures BookLoans(books, loans) == Apply(old(BookLoans(books, loans)), Remove(this, e))
      ensures emprunts == RemoveFirst(old(emprunts), e)
      ensures old(NoDuplicates(emprunts)) ==> e !in emprunts
    {
      RemovedIsGone(emprunts, e);
      if e in emprunts {
        emprunts := RemoveFirst(emprunts, e);
        if e.livre == this {
          e.livre := null;
        }
      }
    }

    method AddReservation(r: Reservations, ghost books: set<Livre>, ghost all: set<Reservations>)
      requires this in books && r in all
      modifies this`reservations, r`livre
      ensures BookReservations(books, all) == Apply(old(BookReservations(books, all)), Add(this, r))
      ensures reservations == if old(r in reservations) then old(reservations) else old(reservations) + [r]
    {
      if r !in reservations {
        reservations := reservations + [r];
        r.livre := this;
      }
    }

    method RemoveReservation(r: Reservations, ghost books: set<Livre>, ghost all: set<Reservations>)
      requires this in books && r in all
      modifies this`reservations, r`livre
      ensures BookReservations(books, all) == Apply(old(BookReservations(books, all)), Remove(this, r))
      ensures reservations == RemoveFirst(old(reservations), r)
      ensures old(NoDuplicates(reservations)) ==> r !in reservations
    {
      RemovedIsGone(reservations, r);
      if r in reservations {
        reservations := RemoveFirst(reservations, r);
        if r.livre == this {
          r.livre := null;
        }
      }
    }

    method AddAuteur(a: Auteur, ghost authors: set<Auteur>, ghost books: set<Livre>)
      requires a in authors && this in books
      modifies this`auteurs
      ensures AuthorBooks(authors, books) == ApplyPair(old(AuthorBooks(authors, books)), AddOwning(a, this))
      ensures auteurs == if old(a in auteurs) then old(auteurs) else old(auteurs) + [a]
    {
      if a !in auteurs {
        auteurs := auteurs + [a];
      }
    }

    method RemoveAuteur(a: Auteur, ghost authors: set<Auteur>, ghost books: set<Livre>)
      requires a in authors && this in books
      modifies this`auteurs
      ensures AuthorBooks(authors, books) == ApplyPair(old(AuthorBooks(authors, books)), RemoveOwning(a, this))
      ensures auteurs == RemoveFirst(old(auteurs), a)
      ensures old(NoDuplicates(auteurs)) ==> a !in auteurs
    {
      RemovedIsGone(auteurs, a);
      auteurs := RemoveFirst(auteurs, a);
    }

    method AddCategory(c: Categorie, ghost cats: set<Categorie>, ghost books: set<Livre>)
      requires c in cats && this in books
      modifies this`categories
      ensures CategoryBooks(cats, books) == ApplyPair(old(CategoryBooks(cats, books)), AddOwning(c, this))
      ensures categories == if old(c in categories) then old(categories) else old(categories) + [c]
    {
      if c !in categories {
        categories := categories + [c];
      }
    }

    method RemoveCategory(c: Categorie, ghost cats: set<Categorie>, ghost books: set<Livre>)
      requires c in cats && this in books
      modifies this`categories
      ensures CategoryBooks(cats, books) == ApplyPair(old(CategoryBooks(cats, books)), RemoveOwning(c, this))
      ensures categories == RemoveFirst(old(categories), c)
      ensures old(NoDuplicates(categories)) ==> c !in categories
    {
      RemovedIsGone(categories, c);
      categories := RemoveFirst(categories, c);
    }

    method GetIsReserve() returns (flag: bool)
      ensures flag <==> exists r :: r in reservations
    {
      flag := |reservations| != 0;
      assert flag ==> reservations[0] in reservations;
    }

    /** True as soon as one loan of the book has no return date. */
    method GetIsEmprunte() returns (flag: bool)
      ensures flag <==> exists e :: e in emprunts && e.dateRetour.None?
    {
      for n := 0 to |emprunts|
        invariant forall j :: 0 <= j < n ==> emprunts[j].dateRetour.Some?
      {
        if emprunts[n].dateRetour.None? {
          return true;
        }
      }
      return false;
    }
  }

  class Utilisateur {
    var id: Option<nat>
    var emprunts: seq<Emprunt>
    var reservations: seq<Reservations>

    constructor ()
      ensures id.None? && emprunts == [] && reservations == []
    {
      id, emprunts, reservations := None, [], [];
    }

    method AddEmprunt(e: Emprunt, ghost members: set<Utilisateur>, ghost loans: set<Emprunt>)
      requires this in members && e in loans
      modifies this`emprunts, e`utilisateur
      ensures MemberLoans(members, loans) == Apply(old(MemberLoans(members, loans)), Add(this, e))
      ensures emprunts == if old(e in emprunts) then old(emprunts) else old(emprunts) + [e]
    {
      if e !in emprunts {
        emprunts := emprunts + [e];
        e.utilisateur := this;
      }
    }

    method RemoveEmprunt(e: Emprunt, ghost members: set<Utilisateur>, ghost loans: set<Emprunt>)
      requires this in members && e in loans
      modifies this`emprunts, e`utilisateur
      ensures MemberLoans(members, loans) == Apply(old(MemberLoans(members, loans)), Remove(this, e))
      ensures emprunts == RemoveFirst(old(emprunts), e)
      ensures old(NoDuplicates(emprunts)) ==> e !in emprunts
    {
      RemovedIsGone(emprunts, e);
      if e in emprunts {
        emprunts := RemoveFirst(emprunts, e);
        if e.utilisateur == this {
          e.utilisateur := null;
        }
      }
    }

    method AddReservation(r: Reservations, ghost members: set<Utilisateur>, ghost all: set<Reservations>)
      requires this in members && r in all
      modifies this`reservations, r`utilisateur
      ensures MemberReservations(members, all) == Apply(old(MemberReservations(members, all)), Add(this, r))
      ensures reservations == if old(r in reservations) then old(reservations) else old(reservations) + [r]
    {
      if r !in reservations {
        reservations := reservations + [r];
        r.utilisateur := this;
      }
    }

    method RemoveReservation(r: Reservations, ghost members: set<Utilisateur>, ghost all: set<Reservations>)
      requires this in members && r in all
      modifies this`reservations, r`utilisateur
      ensures MemberReservations(members, all) == Apply(old(MemberReservations(members, all)), Remove(this, r))
      ensures reservations == RemoveFirst(old(reservations), r)
      ensures old(NoDuplicates(reservations)) ==> r !in reservations
    {
      RemovedIsGone(reservations, r);
      if r in reservations {
        reservations := RemoveFirst(reservations, r);
        if r.utilisateur == this {
          r.utilisateur := null;
        }
      }
    }
  }

  class Auteur {
    var livres: seq<Livre>

    constructor ()
      ensures livres == []
    {
      livres := [];
    }

    method AddLivre(l: Livre, ghost authors: set<Auteur>, ghost books: set<Livre>)
      requires this in authors && l in books
      modifies this`livres, l`auteurs
      ensures AuthorBooks(authors, books) == ApplyPair(old(AuthorBooks(authors, books)), AddInverse(this, l))
      ensures l in livres
    {
      if l !in livres {
        livres := livres + [l];
        l.AddAuteur(this, authors, books);
      }
    }

    method RemoveLivre(l: Livre, ghost authors: set<Auteur>, ghost books: set<Livre>)
      requires this in authors && l in books
      modifies this`livres, l`auteurs
      ensures AuthorBooks(authors, books) == ApplyPair(old(AuthorBooks(authors, books)), RemoveInverse(this, l))
      ensures old(NoDuplicates(livres)) ==> l !in livres
    {
      RemovedIsGone(livres, l);
      if l in livres {
        livres := RemoveFirst(livres, l);
        l.RemoveAuteur(this, authors, books);
      }
    }
  }

  class Categorie {
    var livres: seq<Livre>

    constructor ()
      ensures livres == []
    {
      livres := [];
    }

    method AddLivre(l: Livre, ghost cats: set<Categorie>, ghost books: set<Livre>)
      requires this in cats && l in books
      modifies this`livres, l`categories
      ensures CategoryBooks(cats, books) == ApplyPair(old(CategoryBooks(cats, books)), AddInverse(this, l))
      ensures l in livres
    {
      if l !in livres {
        livres := livres + [l];
        l.AddCategory(this, cats, books);
      }
    }

    method RemoveLivre(l: Livre, ghost cats: set<Categorie>, ghost books: set<Livre>)
      requires this in cats && l in books
      modifies this`livres, l`categories
      ensures CategoryBooks(cats, books) == ApplyPair(old(CategoryBooks(cats, books)), RemoveInverse(this, l))
      ensures old(NoDuplicates(livres)) ==> l !in livres
    {
      RemovedIsGone(livres, l);
      if l in livres {
        livres := RemoveFirst(livres, l);
        l.RemoveCategory(this, cats, books);
      }
    }
  }

  // ------------------------------------------------- the associations on the heap

  ghost function Book(l: Livre?): Option<Livre> {
    if l == null then None else Some(l)
  }

  ghost function Member(u: Utilisateur?): Option<Utilisateur> {
    if u == null then None else Some(u)
  }

  ghost function BookLoans(books: set<Livre>, loans: set<Emprunt>): (g: OneToMany<Livre, Emprunt>)
    reads books`emprunts, loans`livre
    ensures g.coll.Keys == books && g.back.Keys == loans
  {
    OneToMany(map l | l in books :: l.emprunts, map e | e in loans :: Book(e.livre))
  }

  ghost function BookReservations(books: set<Livre>, all: set<Reservations>): (g: OneToMany<Livre, Reservations>)
    reads books`reservations, all`livre
    ensures g.coll.Keys == books && g.back.Keys == all
  {
    OneToMany(map l | l in books :: l.reservations, map r | r in all :: Book(r.livre))
  }

  ghost function MemberLoans(members: set<Utilisateur>, loans: set<Emprunt>): (g: OneToMany<Utilisateur, Emprunt>)
    reads members`emprunts, loans`utilisateur
    ensures g.coll.Keys == members && g.back.Keys == loans
  {
    OneToMany(map u | u in members :: u.emprunts, map e | e in loans :: Member(e.utilisateur))
  }

  ghost function MemberReservations(members: set<Utilisateur>, all: set<Reservations>): (g: OneToMany<Utilisateur, Reservations>)
    reads members`reservations, all`utilisateur
    ensures g.coll.Keys == members && g.back.Keys == all
  {
    OneToMany(map u | u in members :: u.reservations, map r | r in all :: Member(r.utilisateur))
  }

  ghost function AuthorBooks(authors: set<Auteur>, books: set<Livre>): (g: ManyToMany<Auteur, Livre>)
    reads authors`livres, books`auteurs
    ensures g.inverse.Keys == authors && g.owning.Keys == books
  {
    ManyToMany(map a | a in authors :: a.livres, map l | l in books :: l.auteurs)
  }

  ghost function CategoryBooks(cats: set<Categorie>, books: set<Livre>): (g: ManyToMany<Categorie, Livre>)
    reads cats`livres, books`categories
    ensures g.inverse.Keys == cats && g.owning.Keys == books
  {
    ManyToMany(map c | c in cats :: c.livres, map l | l in books :: l.categories)
  }

  // ------------------------------------------------------------------ whole runs

  /** Any run of AddEmprunt and RemoveEmprunt, on any books and loans of the heap. */
  method ReplayLoans(ops: seq<Link<Livre, Emprunt>>, ghost books: set<Livre>, ghost loans: set<Emprunt>)
    requires forall n :: 0 <= n < |ops| ==> ops[n].owner in books && ops[n].item in loans
    requires Consistent(BookLoans(books, loans))
    modifies books`emprunts, loans`livre
    ensures AllKnown(old(BookLoans(books, loans)), ops)
    ensures BookLoans(books, loans) == Run(old(BookLoans(books, loans)), ops)
    ensures Consistent(BookLoans(books, loans))
    ensures old(Exact(BookLoans(books, loans))) && OnlyAddsUnclaimed(old(BookLoans(books, loans)), ops) ==>
              Exact(BookLoans(books, loans))
  {
    ghost var start := BookLoans(books, loans);
    for n := 0 to |ops|
      invariant BookLoans(books, loans) == Run(start, ops[..n])
    {
      assert ops[..n + 1][..n] == ops[..n];
      match ops[n]
      case Add(l, e) => l.AddEmprunt(e, books, loans);
      case Remove(l, e) => l.RemoveEmprunt(e, books, loans);
    }
    assert ops[..|ops|] == ops;
    RunKeepsConsistent(start, ops);
    if Exact(start) && OnlyAddsUnclaimed(start, ops) {
      RunKeepsExact(start, ops);
    }
  }

  /** Any run of Auteur.AddLivre, Auteur.RemoveLivre, Livre.AddAuteur and Livre.RemoveAuteur. */
  method ReplayAuthors(ops: seq<Pairing<Auteur, Livre>>, ghost authors: set<Auteur>, ghost books: set<Livre>)
    requires forall n :: 0 <= n < |ops| ==> ops[n].a in authors && ops[n].b in books
    modifies authors`livres, books`auteurs
    ensures AllKnownPairs(old(AuthorBooks(authors, books)), ops)
    ensures AuthorBooks(authors, books) == RunPairs(old(AuthorBooks(authors, books)), ops)
    ensures old(Mirrored(AuthorBooks(authors, books)))
            && (forall n :: 0 <= n < |ops| ==> ops[n].AddInverse? || ops[n].RemoveInverse?) ==>
              Mirrored(AuthorBooks(authors, books))
    ensures old(Included(AuthorBooks(authors, books)))
            && (forall n :: 0 <= n < |ops| ==> !ops[n].RemoveOwning?) ==>
              Included(AuthorBooks(authors, books))
  {
    ghost var start := AuthorBooks(authors, books);
    for n := 0 to |ops|
      invariant AuthorBooks(authors, books) == RunPairs(start, ops[..n])
    {
      assert ops[..n + 1][..n] == ops[..n];
      match ops[n]
      case AddInverse(a, l) => a.AddLivre(l, authors, books);
      case RemoveInverse(a, l) => a.RemoveLivre(l, authors, books);
      case AddOwning(a, l) => l.AddAuteur(a, authors, books);
      case RemoveOwning(a, l) => l.RemoveAuteur(a, authors, books);
    }
    assert ops[..|ops|] == ops;
    if Mirrored(start) && (forall n :: 0 <= n < |ops| ==> ops[n].AddInverse? || ops[n].RemoveInverse?) {
      InverseRunsStayMirrored(start, ops);
    }
    if Included(start) && (forall n :: 0 <= n < |ops| ==> !ops[n].RemoveOwning?) {
      MixedRunsStayIncluded(start, ops);
    }
  }
}
