/**
 Catalogue search. The query joins every book with its authors and categories (padding with null),
 keeps the rows that satisfy the filters, reduces them to distinct books and returns one page.
 */
module Catalogue {
  import opened Wrappers
  import opened Like
  import opened Paging

  datatype Author = Author(id: nat, nom: string, prenom: string)
  datatype Category = Category(id: nat, nom: string)
  datatype Book = Book(id: nat, titre: string, auteurs: seq<Author>, categories: seq<Category>)

  /** A row of the join; a missing author or category is null. */
  datatype Row = Row(livre: Book, auteur: Option<Author>, categorie: Option<Category>)

  datatype Condition = TitleLike(pattern: string) | AuthorLike(pattern: string) | CategoryLike(pattern: string)

  ghost predicate DistinctIds(books: seq<Book>) {
    forall i, j :: 0 <= i < j < |books| ==> books[i].id != books[j].id
  }

  // ------------------------------------------------------------------ the query

  function Padded<T>(xs: seq<T>): seq<Option<T>> {
    if xs == [] then [None] else seq(|xs|, i requires 0 <= i < |xs| => Some(xs[i]))
  }

  function WithCategories(b: Book, a: Option<Author>, cs: seq<Option<Category>>): seq<Row> {
    seq(|cs|, i requires 0 <= i < |cs| => Row(b, a, cs[i]))
  }

  function Product(b: Book, xs: seq<Option<Author>>, cs: seq<Option<Category>>): seq<Row> {
    if xs == [] then [] else WithCategories(b, xs[0], cs) + Product(b, xs[1..], cs)
  }

  function RowsOf(b: Book): seq<Row> {
    Product(b, Padded(b.auteurs), Padded(b.categories))
  }

  /** FROM livre LEFT JOIN auteur LEFT JOIN categorie */
  function Join(books: seq<Book>): seq<Row>
    decreases |books|
  {
    if books == [] then [] else Join(books[..|books| - 1]) + RowsOf(books[|books| - 1])
  }

  predicate AuthorMatches(a: Author, pattern: string) {
    LikeMatches(pattern, a.nom) || LikeMatches(pattern, a.prenom)
  }

  /** A comparison with null is not true, so a padded row fails a filter on the missing side. */
  predicate Holds(row: Row, c: Condition) {
    match c
    case TitleLike(p) => LikeMatches(p, row.livre.titre)
    case AuthorLike(p) => row.auteur.Some? && AuthorMatches(row.auteur.value, p)
    case CategoryLike(p) => row.categorie.Some? && LikeMatches(p, row.categorie.value.nom)
  }

  predicate HoldsAll(row: Row, where: seq<Condition>) {
    forall i :: 0 <= i < |where| ==> Holds(row, where[i])
  }

  function Filter(rows: seq<Row>, where: seq<Condition>): seq<Row> {
    if rows == [] then []
    else (if HoldsAll(rows[0], where) then [rows[0]] else []) + Filter(rows[1..], where)
  }

  /** Distinct root books, in order of first appearance. */
  function Distinct(rows: seq<Row>): seq<Book>
    decreases |rows|
  {
    if rows == [] then []
    else
      var before := Distinct(rows[..|rows| - 1]);
      var b := rows[|rows| - 1].livre;
      if b in before then before else before + [b]
  }

  /** What the paginator counts and cuts: distinct books of the filtered join. */
  function Result(books: seq<Book>, where: seq<Condition>): seq<Book> {
    Distinct(Filter(Join(books), where))
  }

  // ---------------------------------------------------------- what it means

  /** PHP empty(): null, "" and "0" set no filter. */
  predicate Empty(term: Option<string>) {
    term.None? || term.value == "" || term.value == "0"
  }

  predicate Wanted(b: Book, titre: Option<string>, auteur: Option<string>, categorie: Option<string>) {
    && (Empty(titre) || LikeMatches(Wrap(titre.value), b.titre))
    && (Empty(auteur) || exists a :: a in b.auteurs && AuthorMatches(a, Wrap(auteur.value)))
    && (Empty(categorie) || exists c :: c in b.categories && LikeMatches(Wrap(categorie.value), c.nom))
  }

  function Select(books: seq<Book>, titre: Option<string>, auteur: Option<string>, categorie: Option<string>): seq<Book>
    decreases |books|
  {
    if books == [] then []
    else
      var last := books[|books| - 1];
      Select(books[..|books| - 1], titre, auteur, categorie)
      + if Wanted(last, titre, auteur, categorie) then [last] else []
  }

  /** The conditions the three terms add, in the order they are added. */
  function Where(titre: Option<string>, auteur: Option<string>, categorie: Option<string>): seq<Condition> {
    (if Empty(titre) then [] else [TitleLike(Wrap(titre.value))])
    + (if Empty(auteur) then [] else [AuthorLike(Wrap(auteur.value))])
    + (if Empty(categorie) then [] else [CategoryLike(Wrap(categorie.value))])
  }

  // ------------------------------------------------------ join equals meaning

  lemma {:induction false} ProductRows(b: Book, xs: seq<Option<Author>>, cs: seq<Option<Category>>, row: Row)
    ensures row in Product(b, xs, cs) <==> row.livre == b && row.auteur in xs && row.categorie in cs
  {
    if xs == [] {
    } else {
      ProductRows(b, xs[1..], cs, row);
      assert row.auteur in xs <==> row.auteur == xs[0] || row.auteur in xs[1..];
      var first := WithCategories(b, xs[0], cs);
      if row.livre == b && row.auteur == xs[0] && row.categorie in cs {
        var i :| 0 <= i < |cs| && cs[i] == row.categorie;
        assert first[i] == row;
      }
    }
  }

  lemma {:induction false} FilterMembers(rows: seq<Row>, where: seq<Condition>, row: Row)
    ensures row in Filter(rows, where) <==> row in rows && HoldsAll(row, where)
  {
    if rows == [] {
    } else {
      FilterMembers(rows[1..], where, row);
      assert row in rows <==> row == rows[0] || row in rows[1..];
    }
  }

  lemma {:induction false} FilterConcat(a: seq<Row>, b: seq<Row>, where: seq<Condition>)
    ensures Filter(a + b, where) == Filter(a, where) + Filter(b, where)
  {
    if a == [] {
      assert a + b == b;
    } else {
      assert (a + b)[1..] == a[1..] + b;
      FilterConcat(a[1..], b, where);
      var first := if HoldsAll(a[0], where) then [a[0]] else [];
      assert first + (Filter(a[1..], where) + Filter(b, where)) == (first + Filter(a[1..], where)) + Filter(b, where);
    }
  }

  lemma {:induction false} DistinctMembers(rows: seq<Row>, b: Book)
    ensures b in Distinct(rows) <==> exists row :: row in rows && row.livre == b
    decreases |rows|
  {
    if rows == [] {
    } else {
      var n := |rows| - 1;
      DistinctMembers(rows[..n], b);
      assert rows == rows[..n] + [rows[n]];
    }
  }

  /** Appending the rows of one new book appends that book, once, if any row is left. */
  lemma {:induction false} DistinctAppend(a: seq<Row>, more: seq<Row>, b: Book)
    requires forall row :: row in more ==> row.livre == b
    requires b !in Distinct(a)
    ensures Distinct(a + more) == Distinct(a) + if more == [] then [] else [b]
    decreases |more|
  {
    if more == [] {
      assert a + more == a;
    } else {
      var n := |more| - 1;
      assert (a + more)[..|a| + n] == a + more[..n];
      assert more[n] in more;
      assert forall row :: row in more[..n] ==> row in more;
      DistinctAppend(a, more[..n], b);
    }
  }

  lemma {:induction false} JoinBooks(books: seq<Book>, row: Row)
    requires row in Join(books)
    ensures row.livre in books
    decreases |books|
  {
    if books == [] {
    } else {
      var n := |books| - 1;
      if row in Join(books[..n]) {
        JoinBooks(books[..n], row);
      } else {
        ProductRows(books[n], Padded(books[n].auteurs), Padded(books[n].categories), row);
      }
    }
  }

  lemma PaddedMembers<T>(xs: seq<T>, x: Option<T>)
    ensures x in Padded(xs) <==> if x.Some? then x.value in xs else xs == []
  {
    if x.Some? && x.value in xs {
      var i :| 0 <= i < |xs| && xs[i] == x.value;
      assert Padded(xs)[i] == x;
    }
  }

  /** A book has a row that passes all filters exactly when it is wanted. */
  lemma SomeRowIffWanted(b: Book, titre: Option<string>, auteur: Option<string>, categorie: Option<string>)
    ensures Filter(RowsOf(b), Where(titre, auteur, categorie)) != [] <==> Wanted(b, titre, auteur, categorie)
  {
    var where := Where(titre, auteur, categorie);
    var kept := Filter(RowsOf(b), where);
    if kept != [] {
      KeptRowIsWanted(b, titre, auteur, categorie, kept[0]);
    }
    if Wanted(b, titre, auteur, categorie) {
      var row := WitnessRow(b, titre, auteur, categorie);
      assert row in kept;
    }
  }

  lemma WhereHolds(row: Row, titre: Option<string>, auteur: Option<string>, categorie: Option<string>)
    ensures HoldsAll(row, Where(titre, auteur, categorie)) <==>
            && (Empty(titre) || Holds(row, TitleLike(Wrap(titre.value))))
            && (Empty(auteur) || Holds(row, AuthorLike(Wrap(auteur.value))))
            && (Empty(categorie) || Holds(row, CategoryLike(Wrap(categorie.value))))
  {
    var where := Where(titre, auteur, categorie);
    assert forall c :: c in where ==> exists i :: 0 <= i < |where| && where[i] == c;
    assert !Empty(titre) ==> TitleLike(Wrap(titre.value)) in where;
    assert !Empty(auteur) ==> AuthorLike(Wrap(auteur.value)) in where;
    assert !Empty(categorie) ==> CategoryLike(Wrap(categorie.value)) in where;
  }

  lemma KeptRowIsWanted(b: Book, titre: Option<string>, auteur: Option<string>, categorie: Option<string>, row: Row)
    requires row in Filter(RowsOf(b), Where(titre, auteur, categorie))
    ensures Wanted(b, titre, auteur, categorie) && row.livre == b
  {
    FilterMembers(RowsOf(b), Where(titre, auteur, categorie), row);
    ProductRows(b, Padded(b.auteurs), Padded(b.categories), row);
    PaddedMembers(b.auteurs, row.auteur);
    PaddedMembers(b.categories, row.categorie);
    WhereHolds(row, titre, auteur, categorie);
  }

  lemma WitnessRow(b: Book, titre: Option<string>, auteur: Option<string>, categorie: Option<string>) returns (row: Row)
    requires Wanted(b, titre, auteur, categorie)
    ensures row in Filter(RowsOf(b), Where(titre, auteur, categorie))
  {
    var a: Option<Author>, c: Option<Category>;
    if Empty(auteur) {
      a := Padded(b.auteurs)[0];
    } else {
      var x :| x in b.auteurs && AuthorMatches(x, Wrap(auteur.value));
      a := Some(x);
    }
    if Empty(categorie) {
      c := Padded(b.categories)[0];
    } else {
      var x :| x in b.categories && LikeMatches(Wrap(categorie.value), x.nom);
      c := Some(x);
    }
    row := Row(b, a, c);
    PaddedMembers(b.auteurs, a);
    PaddedMembers(b.categories, c);
    ProductRows(b, Padded(b.auteurs), Padded(b.categories), row);
    WhereHolds(row, titre, auteur, categorie);
    FilterMembers(RowsOf(b), Where(titre, auteur, categorie), row);
  }

  /**
   The distinct books of the filtered, null-padded join are exactly the wanted books, each once,
   in catalogue order.
   */
  lemma {:induction false} ResultIsSelection(books: seq<Book>, titre: Option<string>, auteur: Option<string>, categorie: Option<string>)
    requires DistinctIds(books)
    ensures Result(books, Where(titre, auteur, categorie)) == Select(books, titre, auteur, categorie)
    decreases |books|
  {
    if books == [] {
    } else {
      var n, where := |books| - 1, Where(titre, auteur, categorie);
      var b, before := books[n], Join(books[..n]);
      ResultIsSelection(books[..n], titre, auteur, categorie);
      FilterConcat(before, RowsOf(b), where);
      NewBookIsNew(books, where);
      SomeRowIffWanted(b, titre, auteur, categorie);
      var more := Filter(RowsOf(b), where);
      forall row | row in more
        ensures row.livre == b
      {
        KeptRowIsWanted(b, titre, auteur, categorie, row);
      }
      DistinctAppend(Filter(before, where), more, b);
    }
  }

  lemma NewBookIsNew(books: seq<Book>, where: seq<Condition>)
    requires DistinctIds(books) && books != []
    ensures books[|books| - 1] !in Distinct(Filter(Join(books[..|books| - 1]), where))
  {
    var n := |books| - 1;
    var b, rows := books[n], Filter(Join(books[..n]), where);
    DistinctMembers(rows, b);
    forall row | row in rows
      ensures row.livre != b
    {
      FilterMembers(Join(books[..n]), where, row);
      JoinBooks(books[..n], row);
    }
  }

  // --------------------------------------------------------- meaning as containment

  /** What a reader of the search form expects: the term occurs in the title, or in a name. */
  ghost predicate TitleContains(b: Book, term: string) {
    Contains(b.titre, term)
  }

  ghost predicate NameContains(a: Author, term: string) {
    Contains(a.nom, term) || Contains(a.prenom, term)
  }

  /** An empty term asks for nothing, also of a book that has no author. */
  ghost predicate AuthorsContain(auteurs: seq<Author>, term: string) {
    term == "" || exists a :: a in auteurs && NameContains(a, term)
  }

  ghost predicate CategoriesContain(categories: seq<Category>, term: string) {
    term == "" || exists c :: c in categories && Contains(c.nom, term)
  }

  predicate AuthorsPass(auteurs: seq<Author>, term: string) {
    Empty(Some(term)) || exists a :: a in auteurs && AuthorMatches(a, Wrap(term))
  }

  predicate CategoriesPass(categories: seq<Category>, term: string) {
    Empty(Some(term)) || exists c :: c in categories && LikeMatches(Wrap(term), c.nom)
  }

  predicate TextPasses(s: string, term: string) {
    Empty(Some(term)) || LikeMatches(Wrap(term), s)
  }

  /** Terms that search for themselves: no wildcard, no escape, and not "0". */
  predicate Searchable(term: string) {
    Plain(term) && term != "0"
  }

  lemma SearchableText(s: string, term: string)
    requires Searchable(term)
    ensures TextPasses(s, term) <==> Contains(s, term)
    ensures term != "" ==> (LikeMatches(Wrap(term), s) <==> Contains(s, term))
  {
    PlainTermSearches(term, s);
    assert term == "" ==> term <= s[0..];
  }

  lemma SearchableNames(auteurs: seq<Author>, categories: seq<Category>, term: string)
    requires Searchable(term)
    ensures AuthorsPass(auteurs, term) <==> AuthorsContain(auteurs, term)
    ensures CategoriesPass(categories, term) <==> CategoriesContain(categories, term)
  {
    if term != "" {
      forall a | a in auteurs
        ensures AuthorMatches(a, Wrap(term)) <==> NameContains(a, term)
      {
        SearchableText(a.nom, term);
        SearchableText(a.prenom, term);
      }
      forall c | c in categories
        ensures LikeMatches(Wrap(term), c.nom) <==> Contains(c.nom, term)
      {
        SearchableText(c.nom, term);
      }
    }
  }

  /** Any other term fails on some text, and on some authors and categories. */
  lemma UnsearchableText(term: string) returns (s: string)
    requires !Searchable(term)
    ensures TextPasses(s, term) != Contains(s, term)
    ensures term != "0" ==> !Empty(Some(term)) && LikeMatches(Wrap(term), s) != Contains(s, term)
  {
    if term == "0" {
      s := "";
    } else {
      SearchesIffPlain(term);
      s :| LikeMatches(Wrap(term), s) != Contains(s, term);
    }
  }

  lemma UnsearchableNames(term: string) returns (auteurs: seq<Author>, categories: seq<Category>)
    requires !Searchable(term)
    ensures AuthorsPass(auteurs, term) != AuthorsContain(auteurs, term)
    ensures CategoriesPass(categories, term) != CategoriesContain(categories, term)
  {
    if term == "0" {
      auteurs, categories := [], [];
    } else {
      var s := UnsearchableText(term);
      var a, c := Author(1, s, s), Category(1, s);
      auteurs, categories := [a], [c];
      assert a in auteurs && forall x :: x in auteurs ==> x == a;
      assert c in categories && forall x :: x in categories ==> x == c;
      assert AuthorsPass(auteurs, term) <==> AuthorMatches(a, Wrap(term));
      assert AuthorsContain(auteurs, term) <==> NameContains(a, term);
      assert CategoriesContain(categories, term) <==> Contains(c.nom, term);
    }
  }

  /** Every term is met, in both senses, by some text, authors and categories. */
  lemma MetByAll(term: string) returns (s: string, auteurs: seq<Author>, categories: seq<Category>)
    ensures TextPasses(s, term) && Contains(s, term)
    ensures AuthorsPass(auteurs, term) && AuthorsContain(auteurs, term)
    ensures CategoriesPass(categories, term) && CategoriesContain(categories, term)
  {
    s := AcceptedAndContaining(term);
    auteurs, categories := [Author(1, s, s)], [Category(1, s)];
    assert auteurs[0] in auteurs && categories[0] in categories;
  }

  ghost predicate Described(b: Book, t: string, a: string, c: string) {
    TitleContains(b, t) && AuthorsContain(b.auteurs, a) && CategoriesContain(b.categories, c)
  }

  lemma WantedParts(b: Book, t: string, a: string, c: string)
    ensures Wanted(b, Some(t), Some(a), Some(c)) <==>
            TextPasses(b.titre, t) && AuthorsPass(b.auteurs, a) && CategoriesPass(b.categories, c)
    ensures Wanted(b, Some(t), None, None) <==> TextPasses(b.titre, t)
    ensures Wanted(b, None, Some(a), None) <==> AuthorsPass(b.auteurs, a)
    ensures Wanted(b, None, None, Some(c)) <==> CategoriesPass(b.categories, c)
  {
  }

  /** The title filter means containment on every book exactly for searchable terms. */
  lemma TitleFilterMeansContainment(term: string)
    ensures (forall b: Book :: Wanted(b, Some(term), None, None) <==> TitleContains(b, term)) <==> Searchable(term)
  {
    if Searchable(term) {
      forall b: Book
        ensures Wanted(b, Some(term), None, None) <==> TitleContains(b, term)
      {
        SearchableText(b.titre, term);
      }
    } else {
      var s := UnsearchableText(term);
      var b := Book(1, s, [], []);
      assert Wanted(b, Some(term), None, None) != TitleContains(b, term);
    }
  }

  lemma AuthorFilterMeansContainment(term: string)
    ensures (forall b: Book :: Wanted(b, None, Some(term), None) <==> AuthorsContain(b.auteurs, term)) <==> Searchable(term)
  {
    if Searchable(term) {
      forall b: Book
        ensures Wanted(b, None, Some(term), None) <==> AuthorsContain(b.auteurs, term)
      {
        SearchableNames(b.auteurs, [], term);
        WantedParts(b, "", term, "");
      }
    } else {
      var auteurs, _ := UnsearchableNames(term);
      var b := Book(1, "", auteurs, []);
      WantedParts(b, "", term, "");
      assert Wanted(b, None, Some(term), None) != AuthorsContain(b.auteurs, term);
    }
  }

  lemma CategoryFilterMeansContainment(term: string)
    ensures (forall b: Book :: Wanted(b, None, None, Some(term)) <==> CategoriesContain(b.categories, term)) <==> Searchable(term)
  {
    if Searchable(term) {
      forall b: Book
        ensures Wanted(b, None, None, Some(term)) <==> CategoriesContain(b.categories, term)
      {
        SearchableNames([], b.categories, term);
        WantedParts(b, "", "", term);
      }
    } else {
      var _, categories := UnsearchableNames(term);
      var b := Book(1, "", [], categories);
      WantedParts(b, "", "", term);
      assert Wanted(b, None, None, Some(term)) != CategoriesContain(b.categories, term);
    }
  }

  /** The three filters together mean containment on every book exactly when all three terms are searchable. */
  lemma WantedMeansContainment(t: string, a: string, c: string)
    ensures (forall b: Book :: Wanted(b, Some(t), Some(a), Some(c)) <==> Described(b, t, a, c)) <==>
            Searchable(t) && Searchable(a) && Searchable(c)
  {
    if Searchable(t) && Searchable(a) && Searchable(c) {
      forall b: Book
        ensures Wanted(b, Some(t), Some(a), Some(c)) <==> Described(b, t, a, c)
      {
        WantedParts(b, t, a, c);
        SearchableText(b.titre, t);
        SearchableNames(b.auteurs, [], a);
        SearchableNames([], b.categories, c);
      }
    } else {
      var b := MisfiledBook(t, a, c);
      assert !(Wanted(b, Some(t), Some(a), Some(c)) <==> Described(b, t, a, c));
    }
  }

  /** A book on which the filters and the description disagree. */
  lemma MisfiledBook(t: string, a: string, c: string) returns (b: Book)
    requires !(Searchable(t) && Searchable(a) && Searchable(c))
    ensures Wanted(b, Some(t), Some(a), Some(c)) != Described(b, t, a, c)
  {
    var titre, _, _ := MetByAll(t);
    var _, auteurs, _ := MetByAll(a);
    var _, _, categories := MetByAll(c);
    if !Searchable(t) {
      titre := UnsearchableText(t);
    } else if !Searchable(a) {
      var found, _ := UnsearchableNames(a);
      auteurs := found;
    } else {
      var _, found := UnsearchableNames(c);
      categories := found;
    }
    b := Book(1, titre, auteurs, categories);
    WantedParts(b, t, a, c);
  }

  /** Without filters every book appears, even one that has no author and no category. */
  lemma {:induction false} NoFilterKeepsAll(books: seq<Book>, titre: Option<string>, auteur: Option<string>, categorie: Option<string>)
    requires Empty(titre) && Empty(auteur) && Empty(categorie)
    ensures Select(books, titre, auteur, categorie) == books
    decreases |books|
  {
    if books == [] {
    } else {
      NoFilterKeepsAll(books[..|books| - 1], titre, auteur, categorie);
    }
  }

  /** Positions in a list of length `n`, in order. */
  ghost predicate Increasing(at: seq<nat>, n: nat) {
    && (forall k :: 0 <= k < |at| ==> at[k] < n)
    && forall j, k :: 0 <= j < k < |at| ==> at[j] < at[k]
  }

  /** `found` is `items` read at the positions `at`. */
  ghost predicate ReadAt<T>(items: seq<T>, at: seq<nat>, found: seq<T>) {
    |found| == |at| && forall k :: 0 <= k < |at| ==> at[k] < |items| && found[k] == items[at[k]]
  }

  /** One more item: its position is new and comes last. */
  lemma NextPosition<T>(items: seq<T>, at: seq<nat>, found: seq<T>)
    requires items != [] && Increasing(at, |items| - 1) && ReadAt(items[..|items| - 1], at, found)
    ensures var n := |items| - 1;
            && n !in at && (forall i: nat :: i in at + [n] <==> i in at || i == n)
            && Increasing(at, |items|) && ReadAt(items, at, found)
            && Increasing(at + [n], |items|) && ReadAt(items, at + [n], found + [items[n]])
  {
  }

  /** The selection is the list read at the positions of the wanted books: none twice, none out of order. */
  lemma {:induction false} SelectedPositions(books: seq<Book>, titre: Option<string>, auteur: Option<string>, categorie: Option<string>)
    returns (at: seq<nat>)
    ensures Increasing(at, |books|)
    ensures forall i: nat :: i < |books| ==> (i in at <==> Wanted(books[i], titre, auteur, categorie))
    ensures ReadAt(books, at, Select(books, titre, auteur, categorie))
    decreases |books|
  {
    if books == [] {
      at := [];
    } else {
      var n := |books| - 1;
      at := SelectedPositions(books[..n], titre, auteur, categorie);
      NextPosition(books, at, Select(books[..n], titre, auteur, categorie));
      if Wanted(books[n], titre, auteur, categorie) {
        at := at + [n];
      }
    }
  }

  // ------------------------------------------------------------- the repositories

  datatype QueryError = NegativeOffset
  datatype SearchPage<T> = SearchPage(data: seq<T>, totalPages: nat, currentPage: int)

  /** The query builder, extended in place condition by condition. */
  class QueryBuilder {
    var where: seq<Condition>
    var firstResult: int
    var maxResults: int

    constructor ()
      ensures where == []
    {
      where, firstResult, maxResults := [], 0, 0;
    }

    method AndWhere(c: Condition)
      modifies this`where
      ensures where == old(where) + [c]
    {
      where := where + [c];
    }
  }

  /** LivreRepository::findBySearchCriteria over the catalogue `books`, in the engine's order. */
  method FindBooks(books: seq<Book>, titre: Option<string>, auteur: Option<string>, categorie: Option<string>,
                   page: int, limit: nat)
    returns (r: Wrappers.Result<SearchPage<Book>, QueryError>)
    requires limit >= 1 && DistinctIds(books)
    ensures page < 1 <==> r == Failure(NegativeOffset)
    ensures page >= 1 ==>
              var found := Select(books, titre, auteur, categorie);
              r == Success(SearchPage(Page(found, page, limit), TotalPages(|found|, limit), page))
  {
    var qb := new QueryBuilder();
    if !Empty(titre) {
      qb.AndWhere(TitleLike(Wrap(titre.value)));
    }
    if !Empty(auteur) {
      qb.AndWhere(AuthorLike(Wrap(auteur.value)));
    }
    if !Empty(categorie) {
      qb.AndWhere(CategoryLike(Wrap(categorie.value)));
    }
    assert qb.where == Where(titre, auteur, categorie);
    qb.firstResult := (page - 1) * limit;
    qb.maxResults := limit;
    OffsetSign(page, limit);
    if qb.firstResult < 0 {
      return Failure(NegativeOffset);
    }
    ResultIsSelection(books, titre, auteur, categorie);
    var found := Result(books, qb.where);
    var totalPages := PageCount(|found|, limit);
    return Success(SearchPage(Window(found, qb.firstResult, qb.maxResults),
                              if totalPages > 0 then totalPages else 1, page));
  }

  lemma OffsetSign(page: int, limit: nat)
    requires limit >= 1
    ensures (page - 1) * limit < 0 <==> page < 1
  {
  }

  predicate AuthorWanted(a: Author, nom: Option<string>) {
    Empty(nom) || AuthorMatches(a, Wrap(nom.value))
  }

  function SelectAuthors(authors: seq<Author>, nom: Option<string>): seq<Author> {
    if authors == [] then []
    else (if AuthorWanted(authors[0], nom) then [authors[0]] else []) + SelectAuthors(authors[1..], nom)
  }

  /** AuteurRepository::findBySearchCriteria: one table, so no join and nothing to deduplicate. */
  method FindAuthors(authors: seq<Author>, nom: Option<string>, page: int, limit: nat)
    returns (r: Wrappers.Result<SearchPage<Author>, QueryError>)
    requires limit >= 1
    ensures page < 1 <==> r == Failure(NegativeOffset)
    ensures page >= 1 ==>
              var found := SelectAuthors(authors, nom);
              r == Success(SearchPage(Page(found, page, limit), TotalPages(|found|, limit), page))
  {
    var offset := (page - 1) * limit;
    OffsetSign(page, limit);
    if offset < 0 {
      return Failure(NegativeOffset);
    }
    var found := SelectAuthors(authors, nom);
    var totalPages := PageCount(|found|, limit);
    return Success(SearchPage(Window(found, offset, limit), if totalPages > 0 then totalPages else 1, page));
  }

  lemma {:induction false} SelectedAuthors(authors: seq<Author>, nom: Option<string>, a: Author)
    ensures a in SelectAuthors(authors, nom) <==> a in authors && AuthorWanted(a, nom)
  {
    if authors == [] {
    } else {
      SelectedAuthors(authors[1..], nom, a);
      assert a in authors <==> a == authors[0] || a in authors[1..];
    }
  }

  /** The search lists the authors at the wanted positions: none twice, none out of order. */
  lemma {:induction false} SelectedAuthorPositions(authors: seq<Author>, nom: Option<string>) returns (at: seq<nat>)
    ensures Increasing(at, |authors|)
    ensures forall i: nat :: i < |authors| ==> (i in at <==> AuthorWanted(authors[i], nom))
    ensures ReadAt(authors, at, SelectAuthors(authors, nom))
    decreases |authors|
  {
    if authors == [] {
      at := [];
    } else {
      var n := |authors| - 1;
      at := SelectedAuthorPositions(authors[..n], nom);
      SelectAuthorsLast(authors, nom);
      NextPosition(authors, at, SelectAuthors(authors[..n], nom));
      if AuthorWanted(authors[n], nom) {
        at := at + [n];
      }
    }
  }

  lemma {:induction false} SelectAuthorsLast(authors: seq<Author>, nom: Option<string>)
    requires authors != []
    ensures var n := |authors| - 1;
            SelectAuthors(authors, nom)
            == SelectAuthors(authors[..n], nom) + if AuthorWanted(authors[n], nom) then [authors[n]] else []
    decreases |authors|
  {
    var n := |authors| - 1;
    if n == 0 {
    } else {
      SelectAuthorsLast(authors[1..], nom);
      assert authors[1..][..n - 1] == authors[..n][1..] && authors[..n][0] == authors[0];
    }
  }

  /** A matching author is listed as often as it is in the table, any other not at all. */
  lemma {:induction false} AuthorCounts(authors: seq<Author>, nom: Option<string>, a: Author)
    ensures multiset(SelectAuthors(authors, nom))[a] == if AuthorWanted(a, nom) then multiset(authors)[a] else 0
  {
    if authors == [] {
    } else {
      AuthorCounts(authors[1..], nom, a);
      assert authors == [authors[0]] + authors[1..];
    }
  }

  lemma {:induction false} NoTermKeepsAllAuthors(authors: seq<Author>, nom: Option<string>)
    requires Empty(nom)
    ensures SelectAuthors(authors, nom) == authors
  {
    if authors == [] {
    } else {
      NoTermKeepsAllAuthors(authors[1..], nom);
    }
  }

  lemma SearchableName(a: Author, term: string)
    requires Searchable(term)
    ensures AuthorWanted(a, Some(term)) <==> NameContains(a, term)
  {
    SearchableText(a.nom, term);
    SearchableText(a.prenom, term);
  }

  ghost predicate FoundIffNamed(authors: seq<Author>, a: Author, term: string) {
    a in SelectAuthors(authors, Some(term)) <==> a in authors && NameContains(a, term)
  }

  /** The author search finds, in every list, the authors one of whose names contains the term, exactly for searchable terms. */
  lemma AuthorSearchMeansContainment(term: string)
    ensures (forall authors, a :: FoundIffNamed(authors, a, term)) <==> Searchable(term)
  {
    if Searchable(term) {
      forall authors: seq<Author>, a: Author
        ensures FoundIffNamed(authors, a, term)
      {
        SelectedAuthors(authors, Some(term), a);
        SearchableName(a, term);
      }
    } else {
      var s := UnsearchableText(term);
      var a := Author(1, s, s);
      SelectedAuthors([a], Some(term), a);
      assert !FoundIffNamed([a], a, term);
    }
  }
}
