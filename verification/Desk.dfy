/**
 The controllers of the circulation desk: the code that runs the validators, reads the object graph
 and changes the tables. Each method is shown to take exactly the step of the serial state machine
 it stands for, so everything proved about runs applies to it.
 */
module Desk {
  import opened Wrappers
  import opened Columns
  import opened Circulation
  import opened SerialDesk
  import opened ObjectGraph

  // ----------------------------------------------- object graph and tables

  /** The loaded collection shows exactly the rows `rows`, each as one object with its return date. */
  ghost predicate ShowsLoans(loans: Loans, s: seq<Emprunt>, rows: set<Id>)
    reads s`id, s`dateRetour
  {
    && (forall j :: 0 <= j < |s| ==>
          && s[j].id.Some? && s[j].id.value in rows && s[j].id.value in loans
          && s[j].dateRetour == loans[s[j].id.value].returned)
    && (forall i :: i in rows ==> exists j :: 0 <= j < |s| && s[j].id == Some(i))
    && (forall j, k :: 0 <= j < k < |s| ==> s[j].id != s[k].id)
  }

  ghost predicate ShowsReservations(s: seq<ObjectGraph.Reservations>, rows: set<Id>)
    reads s`id
  {
    && (forall j :: 0 <= j < |s| ==> s[j].id.Some? && s[j].id.value in rows)
    && (forall i :: i in rows ==> exists j :: 0 <= j < |s| && s[j].id == Some(i))
  }

  /** The book's collections mirror the tables. */
  ghost predicate BookMirrors(db: Db, l: Livre)
    reads l`id, l`emprunts, l`reservations, l.emprunts`id, l.emprunts`dateRetour, l.reservations`id
  {
    && l.id.Some? && l.id.value in db.books
    && ShowsLoans(db.loans, l.emprunts, set i | i in db.loans && db.loans[i].book == l.id.value)
    && ShowsReservations(l.reservations, set i | i in db.reservations && db.reservations[i].book == l.id.value)
  }

  /** The member's loans mirror the table. */
  ghost predicate MemberMirrors(db: Db, u: Utilisateur)
    reads u`id, u`emprunts, u.emprunts`id, u.emprunts`dateRetour
  {
    && u.id.Some? && u.id.value in db.members
    && ShowsLoans(db.loans, u.emprunts, set i | i in db.loans && db.loans[i].member == u.id.value)
  }

  ghost predicate Lent(l: Livre)
    reads l`emprunts, l.emprunts`dateRetour
  {
    exists e :: e in l.emprunts && e.dateRetour.None?
  }

  ghost predicate Reserved(l: Livre)
    reads l
  {
    exists r :: r in l.reservations
  }

  /** On a mirrored book the two flags answer the validators' queries. */
  lemma FlagsAnswerQueries(db: Db, l: Livre)
    requires Schema(db) && BookMirrors(db, l)
    ensures Lent(l) <==> OpenLoansOn(db.loans, l.id.value) != {}
    ensures Reserved(l) <==> ReservationsOfBook(db.reservations, l.id.value, 0) != {}
  {
    var b := l.id.value;
    if Lent(l) {
      var e :| e in l.emprunts && e.dateRetour.None?;
      assert e.id.value in OpenLoansOn(db.loans, b);
    }
    if i :| i in OpenLoansOn(db.loans, b) {
      var j :| 0 <= j < |l.emprunts| && l.emprunts[j].id == Some(i);
      assert l.emprunts[j] in l.emprunts;
    }
    if Reserved(l) {
      var r :| r in l.reservations;
      assert r.id.value in ReservationsOfBook(db.reservations, b, 0);
    }
    if i :| i in ReservationsOfBook(db.reservations, b, 0) {
      var j :| 0 <= j < |l.reservations| && l.reservations[j].id == Some(i);
      assert l.reservations[j] in l.reservations;
    }
  }

  /** A new reservation is accepted iff both flags are down and the member holds fewer than three. */
  lemma ReservableIffFlagsDown(db: Db, l: Livre, m: Id, date: Option<int>)
    requires Schema(db) && BookMirrors(db, l)
    ensures ReservationViolations(db, ReservationForm(None, Some(m), l.id, date)) == [] <==>
            !Lent(l) && !Reserved(l) && |Holders(ReservationMembers(db.reservations), m)| < 3
  {
    FlagsAnswerQueries(db, l);
    assert ReservationsOfMember(db.reservations, m, 0) == Holders(ReservationMembers(db.reservations), m);
  }

  ghost function OpenIds(s: seq<Emprunt>, n: nat): set<Id>
    requires n <= |s| && forall j :: 0 <= j < |s| ==> s[j].id.Some?
    reads s
  {
    set j | 0 <= j < n && s[j].dateRetour.None? :: s[j].id.value
  }

  lemma NextOpenId(s: seq<Emprunt>, n: nat)
    requires n < |s| && forall j :: 0 <= j < |s| ==> s[j].id.Some?
    requires forall j, k :: 0 <= j < k < |s| ==> s[j].id != s[k].id
    ensures |OpenIds(s, n + 1)| == |OpenIds(s, n)| + if s[n].dateRetour.None? then 1 else 0
  {
    if s[n].dateRetour.None? {
      assert OpenIds(s, n + 1) == OpenIds(s, n) + {s[n].id.value};
    } else {
      assert OpenIds(s, n + 1) == OpenIds(s, n);
    }
  }

  /** The counting loop of persistEntity over the member's loans. */
  method CountOpen(u: Utilisateur, ghost db: Db) returns (count: nat)
    requires Schema(db) && MemberMirrors(db, u)
    ensures count == |OpenLoansOfMember(db.loans, u.id.value, 0)|
  {
    var s := u.emprunts;
    count := 0;
    for n := 0 to |s|
      invariant count == |OpenIds(s, n)|
    {
      NextOpenId(s, n);
      if s[n].dateRetour.None? {
        count := count + 1;
      }
    }
    OpenIdsAreRows(db, u);
  }

  lemma OpenIdsAreRows(db: Db, u: Utilisateur)
    requires Schema(db) && MemberMirrors(db, u)
    ensures OpenIds(u.emprunts, |u.emprunts|) == OpenLoansOfMember(db.loans, u.id.value, 0)
  {
    var s := u.emprunts;
    forall i | i in OpenLoansOfMember(db.loans, u.id.value, 0)
      ensures i in OpenIds(s, |s|)
    {
      assert i in (set i | i in db.loans && db.loans[i].member == u.id.value);
      var j :| 0 <= j < |s| && s[j].id == Some(i);
    }
  }

  /** The two checks of persistEntity on the object graph. */
  method CheckQuotas(l: Livre, u: Utilisateur, ghost db: Db) returns (outcome: Outcome)
    requires Schema(db) && BookMirrors(db, l) && MemberMirrors(db, u)
    ensures outcome.Done? <==> !PersistRefuses(db.loans, u.id.value, l.id.value)
    ensures outcome.BookAlreadyLent? <==> OpenLoansOn(db.loans, l.id.value) != {}
    ensures outcome.Done? || outcome.BookAlreadyLent? || outcome.QuotaReached?
  {
    FlagsAnswerQueries(db, l);
    var lent := l.GetIsEmprunte();
    assert lent <==> Lent(l);
    if lent {
      return BookAlreadyLent;
    }
    var count := CountOpen(u, db);
    return if count >= 5 then QuotaReached else Done;
  }

  // ------------------------------------------------------------------ controllers

  /** An Emprunt object as the validator sees it. */
  function FormOf(e: Emprunt): LoanForm
    reads e, e.utilisateur, e.livre
  {
    LoanForm(e.id,
             if e.utilisateur == null then None else e.utilisateur.id,
             if e.livre == null then None else e.livre.id,
             e.dateEmprunt, e.dateRetour)
  }

  datatype Outcome =
    | Done
    | NotFound
    | Forbidden
    | AlreadyReturned
    | Violations(violations: seq<Violation>)
    | NullReference
    | BookAlreadyLent
    | QuotaReached
    | Conflict

  lemma RefusedKeepsTables(db: Db, f: LoanForm, now: int)
    requires || f.member.None? || f.book.None? || LoanViolations(db.loans, f.(id := None)) != []
             || PersistRefuses(db.loans, f.member.value, f.book.value)
    ensures !Accepts(db, CreateLoan(f, now)) && Next(db, CreateLoan(f, now), db)
  {
  }

  lemma AcceptedStoresRow(db: Db, f: LoanForm, now: int, db': Db, row: Loan)
    requires References(db, f.member, f.book) && LoanViolations(db.loans, f.(id := None)) == []
    requires !PersistRefuses(db.loans, f.member.value, f.book.value)
    requires row == Loan(f.member.value, f.book.value, f.borrowed.GetOr(now), f.returned)
    requires DropsOneMatch(db.reservations, db'.reservations, row.member, row.book)
    requires db' == InsertLoan(db, row).(reservations := db'.reservations)
    ensures Accepts(db, CreateLoan(f, now)) && Next(db, CreateLoan(f, now), db')
  {
  }

  /** The validator service: a fresh context, one validator, the violations it collected. */
  method Validate(loans: Loans, form: LoanForm) returns (violations: seq<Violation>)
    ensures violations == LoanViolations(loans, form)
  {
    var context := new ValidationContext();
    context.ValidateLoan(loans, form);
    return context.violations;
  }

  class EntityManager {
    var db: Db

    constructor (db: Db)
      ensures this.db == db
    {
      this.db := db;
    }

    /** The "new loan" screen: validation, then persistEntity. */
    method CreateLoan(e: Emprunt, now: int) returns (outcome: Outcome)
      requires Schema(db) && e.id.None?
      requires e.livre != null ==> BookMirrors(db, e.livre)
      requires e.utilisateur != null ==> MemberMirrors(db, e.utilisateur)
      modifies this, e`dateEmprunt
      ensures Next(old(db), Request.CreateLoan(old(FormOf(e)), now), db)
      ensures outcome.Done? <==> Accepts(old(db), Request.CreateLoan(old(FormOf(e)), now))
      ensures outcome.Violations? <==> LoanViolations(old(db).loans, old(FormOf(e))) != []
      ensures outcome.Violations? ==> outcome.violations == LoanViolations(old(db).loans, old(FormOf(e)))
      ensures outcome.Violations? ==> e.dateEmprunt == old(e.dateEmprunt)
      ensures !outcome.Violations? ==> e.dateEmprunt == Some(old(e.dateEmprunt).GetOr(now))
      ensures outcome.Done? ==>
                && old(db).nextLoan in db.loans && e.utilisateur != null && e.livre != null
                && var row := db.loans[old(db).nextLoan];
                   && e.utilisateur.id == Some(row.member) && e.livre.id == Some(row.book)
                   && e.dateEmprunt == Some(row.borrowed) && e.dateRetour == row.returned
    {
      var form := FormOf(e);
      var violations := Validate(db.loans, form);
      if violations != [] {
        RefusedKeepsTables(db, form, now);
        return Violations(violations);
      }
      outcome := PersistEntity(e, now, form);
    }

    /** EmpruntCrudController::persistEntity */
    method PersistEntity(e: Emprunt, now: int, ghost form: LoanForm) returns (outcome: Outcome)
      requires form == FormOf(e) && e.id.None? && LoanViolations(db.loans, form) == []
      requires Schema(db)
      requires e.livre != null ==> BookMirrors(db, e.livre)
      requires e.utilisateur != null ==> MemberMirrors(db, e.utilisateur)
      modifies this, e`dateEmprunt
      ensures Next(old(db), Request.CreateLoan(form, now), db)
      ensures outcome.Done? <==> Accepts(old(db), Request.CreateLoan(form, now))
      ensures outcome.NullReference? <==> e.livre == null || e.utilisateur == null
      ensures outcome.BookAlreadyLent? <==>
                e.livre != null && e.utilisateur != null && OpenLoansOn(old(db).loans, e.livre.id.value) != {}
      ensures outcome.Done? || outcome.NullReference? || outcome.BookAlreadyLent? || outcome.QuotaReached?
      ensures e.dateEmprunt == Some(old(e.dateEmprunt).GetOr(now))
      ensures outcome.Done? ==>
                && old(db).nextLoan in db.loans && e.utilisateur != null && e.livre != null
                && var row := db.loans[old(db).nextLoan];
                   && e.utilisateur.id == Some(row.member) && e.livre.id == Some(row.book)
                   && e.dateEmprunt == Some(row.borrowed) && e.dateRetour == row.returned
    {
      if e.dateEmprunt.None? {
        e.dateEmprunt := Some(now);
      }
      if e.livre == null || e.utilisateur == null {
        RefusedKeepsTables(db, form, now);
        return NullReference;
      }
      outcome := CheckQuotas(e.livre, e.utilisateur, db);
      if outcome.Done? {
        ghost var before := db;
        var row := Loan(e.utilisateur.id.value, e.livre.id.value, e.dateEmprunt.value, e.dateRetour);
        StoreLoan(row);
        AcceptedStoresRow(before, form, now, db, row);
      } else {
        RefusedKeepsTables(db, form, now);
      }
    }

    /** The reservation the borrower held for the book, if any, gives way to the loan. */
    method StoreLoan(row: Loan)
      modifies this
      ensures DropsOneMatch(old(db).reservations, db.reservations, row.member, row.book)
      ensures db == InsertLoan(old(db), row).(reservations := db.reservations)
    {
      var matches := set i | i in db.reservations
                             && db.reservations[i].member == row.member && db.reservations[i].book == row.book;
      if matches == {} {
        assert forall i :: i in db.reservations ==> i !in matches;
      } else {
        var i :| i in matches;
        db := db.(reservations := db.reservations - {i});
      }
      db := InsertLoan(db, row);
    }

    /** EmpruntCrudController::rendreLivre */
    method ReturnLoan(id: Id, now: int) returns (outcome: Outcome)
      modifies this
      ensures Next(old(db), Request.ReturnLoan(id, now), db)
      ensures outcome.Done? <==> Accepts(old(db), Request.ReturnLoan(id, now))
      ensures id !in old(db).loans ==> outcome == NotFound && db == old(db)
      ensures id in old(db).loans && old(db).loans[id].returned != None ==> outcome == AlreadyReturned && db == old(db)
      ensures id in old(db).loans && old(db).loans[id].returned == None ==>
                && outcome == Done && OnlyLoan(old(db), db, id) && id in db.loans
                && db.loans[id].returned == Some(now) && db.loans[id].(returned := None) == old(db).loans[id]
    {
      if id !in db.loans {
        return NotFound;
      } else if db.loans[id].returned.Some? {
        return AlreadyReturned;
      }
      db := db.(loans := db.loans[id := db.loans[id].(returned := Some(now))]);
      return Done;
    }

    /** ReservationsCrudController::transformerEnEmprunt */
    method ConvertReservation(id: Id, now: int) returns (outcome: Outcome)
      modifies this
      ensures Next(old(db), Request.ConvertReservation(id, now), db)
      ensures outcome.Done? <==> Accepts(old(db), Request.ConvertReservation(id, now))
      ensures outcome.NotFound? <==> id !in old(db).reservations
      ensures outcome.Done? || outcome.NotFound? || (outcome.Violations? && outcome.violations != [])
      ensures !outcome.Done? ==> db == old(db)
    {
      if id !in db.reservations {
        return NotFound;
      }
      var r := db.reservations[id];
      var violations := Validate(db.loans, LoanForm(None, Some(r.member), Some(r.book), Some(now), None));
      if |violations| > 0 {
        return Violations(violations);
      }
      db := InsertLoan(db, Loan(r.member, r.book, now, None));
      db := db.(reservations := db.reservations - {id});
      return Done;
    }

    /** ReservationsController::create */
    method Reserve(m: Id, b: Id, now: int) returns (outcome: Outcome)
      modifies this
      ensures Next(old(db), Request.Reserve(m, b, now), db)
      ensures outcome.Done? <==> Accepts(old(db), Request.Reserve(m, b, now))
      ensures outcome.NotFound? <==> m !in old(db).members || b !in old(db).books
      ensures outcome.Done? || outcome.NotFound? || outcome.Conflict?
      ensures !outcome.Done? ==> db == old(db)
    {
      if m !in db.members || b !in db.books {
        return NotFound;
      }
      var active := ReservationsHeldBy(db.reservations, m);
      if |active| >= 3 {
        return Conflict;
      }
      var held := ReservationsOn(db.reservations, b);
      if held != {} {
        return Conflict;
      }
      var lent := set i | i in db.loans && db.loans[i].book == b && db.loans[i].returned == None;
      assert lent == OpenLoansOn(db.loans, b);
      if lent != {} {
        return Conflict;
      }
      db := InsertReservation(db, Reservation(m, b, now));
      return Done;
    }

    /** ReservationsController::delete */
    method CancelReservation(id: Id, user: Id) returns (outcome: Outcome)
      modifies this
      ensures Next(old(db), Request.CancelReservation(id, user), db)
      ensures outcome.Done? <==> Accepts(old(db), Request.CancelReservation(id, user))
      ensures id !in old(db).reservations ==> outcome == NotFound && db == old(db)
      ensures id in old(db).reservations && old(db).reservations[id].member != user ==> outcome == Forbidden && db == old(db)
      ensures id in old(db).reservations && old(db).reservations[id].member == user ==>
                outcome == Done && OnlyReservation(old(db), db, id) && id !in db.reservations
    {
      if id !in db.reservations {
        return NotFound;
      }
      if db.reservations[id].member != user {
        return Forbidden;
      }
      db := db.(reservations := db.reservations - {id});
      return Done;
    }
  }
}
