/**
 The tables of the circulation desk and the two validators that guard them.

 The database is a pair of maps from row id to row. It has NOT NULL and foreign-key constraints and
 AUTO_INCREMENT ids, but no unique constraint behind the lending rules: those rules live only in
 the validators, which count other rows and leave out the row being edited by its id.
 */
module Circulation {
  import opened Wrappers
  import opened Numbers
  import opened Columns

  const MAX_LOANS := 5
  const MAX_LOANS_PER_BOOK := 1
  const MAX_RESERVATIONS := 3
  const MAX_RESERVATIONS_PER_BOOK := 1

  /** A row of `emprunt`. A loan is open while it has no return date. */
  datatype Loan = Loan(member: Id, book: Id, borrowed: int, returned: Option<int>) {
    predicate Open() {
      returned.None?
    }
  }

  /** A row of `reservations`. */
  datatype Reservation = Reservation(member: Id, book: Id, date: int)

  type Loans = map<Id, Loan>
  type Reservations = map<Id, Reservation>

  datatype Db = Db(members: set<Id>, books: set<Id>,
                   loans: Loans, nextLoan: Id,
                   reservations: Reservations, nextReservation: Id)

  /** What the engine itself enforces: positive AUTO_INCREMENT ids and foreign keys. */
  ghost predicate Schema(db: Db) {
    && 1 <= db.nextLoan && 1 <= db.nextReservation
    && (forall i :: i in db.loans ==>
          1 <= i < db.nextLoan && db.loans[i].member in db.members && db.loans[i].book in db.books)
    && (forall i :: i in db.reservations ==>
          1 <= i < db.nextReservation
          && db.reservations[i].member in db.members && db.reservations[i].book in db.books)
  }

  /** An `Emprunt` object as the validator sees it: unsaved objects have no id, fields may be null. */
  datatype LoanForm = LoanForm(id: Option<Id>, member: Option<Id>, book: Option<Id>,
                               borrowed: Option<int>, returned: Option<int>)

  datatype ReservationForm = ReservationForm(id: Option<Id>, member: Option<Id>, book: Option<Id>,
                                             date: Option<int>)

  datatype Message = MaxLoansReached | BookUnavailable
                   | MaxReservationsReached | AlreadyReserved | AlreadyLent
  datatype Field = MemberField | BookField
  datatype Violation = Violation(message: Message, path: Field)

  // ---------------------------------------------------------------- queries

  function OpenLoansOfMember(loans: Loans, m: Id, self: Id): set<Id> {
    set i | i in loans && loans[i].member == m && loans[i].Open() && i != self
  }

  function OpenLoansOfBook(loans: Loans, b: Id, self: Id): set<Id> {
    set i | i in loans && loans[i].book == b && loans[i].Open() && i != self
  }

  function OpenLoansOn(loans: Loans, b: Id): set<Id> {
    set i | i in loans && loans[i].book == b && loans[i].Open()
  }

  function ReservationsOfMember(reservations: Reservations, m: Id, self: Id): set<Id> {
    set i | i in reservations && reservations[i].member == m && i != self
  }

  function ReservationsOfBook(reservations: Reservations, b: Id, self: Id): set<Id> {
    set i | i in reservations && reservations[i].book == b && i != self
  }

  // ------------------------------------------------------------- validators

  /** The violations a loan raises against the tables, in the order they are reported. */
  function LoanViolations(loans: Loans, form: LoanForm): seq<Violation> {
    if form.member.None? || form.book.None? || form.returned.Some? then []
    else
      var self := form.id.GetOr(0);
      (if |OpenLoansOfMember(loans, form.member.value, self)| >= 5
       then [Violation(MaxLoansReached, MemberField)] else [])
      + (if |OpenLoansOfBook(loans, form.book.value, self)| > 0
         then [Violation(BookUnavailable, BookField)] else [])
  }

  function ReservationViolations(db: Db, form: ReservationForm): seq<Violation> {
    if form.member.None? || form.book.None? then []
    else
      var self := form.id.GetOr(0);
      (if |ReservationsOfMember(db.reservations, form.member.value, self)| >= 3
       then [Violation(MaxReservationsReached, MemberField)] else [])
      + (if |ReservationsOfBook(db.reservations, form.book.value, self)| > 0
         then [Violation(AlreadyReserved, BookField)] else [])
      + (if |OpenLoansOn(db.loans, form.book.value)| > 0
         then [Violation(AlreadyLent, BookField)] else [])
  }

  /** The execution context validators append their violations to. */
  class ValidationContext {
    var violations: seq<Violation>

    constructor ()
      ensures violations == []
    {
      violations := [];
    }

    method AddViolation(v: Violation)
      modifies this
      ensures violations == old(violations) + [v]
    {
      violations := violations + [v];
    }

    /** EmpruntRulesValidator::validate */
    method ValidateLoan(loans: Loans, form: LoanForm)
      modifies this
      ensures violations == old(violations) + LoanViolations(loans, form)
      ensures form.member.None? || form.book.None? || form.returned.Some? ==> violations == old(violations)
    {
      if form.member.None? || form.book.None? {
        return;
      }
      if form.returned.Some? {
        return;
      }
      var self := form.id.GetOr(0);
      var ofMember := OpenLoansOfMember(loans, form.member.value, self);
      if |ofMember| >= 5 {
        AddViolation(Violation(MaxLoansReached, MemberField));
      }
      var ofBook := OpenLoansOfBook(loans, form.book.value, self);
      if |ofBook| > 0 {
        AddViolation(Violation(BookUnavailable, BookField));
      }
    }

    /** ReservationRulesValidator::validate */
    method ValidateReservation(db: Db, form: ReservationForm)
      modifies this
      ensures violations == old(violations) + ReservationViolations(db, form)
      ensures form.member.None? || form.book.None? ==> violations == old(violations)
    {
      if form.member.None? || form.book.None? {
        return;
      }
      var self := form.id.GetOr(0);
      var ofMember := ReservationsOfMember(db.reservations, form.member.value, self);
      if |ofMember| >= 3 {
        AddViolation(Violation(MaxReservationsReached, MemberField));
      }
      var ofBook := ReservationsOfBook(db.reservations, form.book.value, self);
      if |ofBook| > 0 {
        AddViolation(Violation(AlreadyReserved, BookField));
      }
      var lent := OpenLoansOn(db.loans, form.book.value);
      if |lent| > 0 {
        AddViolation(Violation(AlreadyLent, BookField));
      }
    }
  }

  // ----------------------------------------------------------- lending rules

  function LoanMembers(loans: Loans): Column {
    map i | i in loans && loans[i].Open() :: loans[i].member
  }

  function LoanBooks(loans: Loans): Column {
    map i | i in loans && loans[i].Open() :: loans[i].book
  }

  function ReservationMembers(reservations: Reservations): Column {
    map i | i in reservations :: reservations[i].member
  }

  function ReservationBooks(reservations: Reservations): Column {
    map i | i in reservations :: reservations[i].book
  }

  /** At most 5 open loans per member and 1 per book. */
  ghost predicate LoansWithinLimits(loans: Loans) {
    Within(LoanMembers(loans), MAX_LOANS) && Within(LoanBooks(loans), MAX_LOANS_PER_BOOK)
  }

  /** At most 3 reservations per member and 1 per book. */
  ghost predicate ReservationsWithinLimits(reservations: Reservations) {
    && Within(ReservationMembers(reservations), MAX_RESERVATIONS)
    && Within(ReservationBooks(reservations), MAX_RESERVATIONS_PER_BOOK)
  }

  ghost predicate WithinLimits(db: Db) {
    LoansWithinLimits(db.loans) && ReservationsWithinLimits(db.reservations)
  }

  // ---------------------------------------------------- exactness of the rules

  /**
   Row `i` is where a form with this id will be written: the edited row itself, or a fresh id for
   an object that was never saved.
   */
  ghost predicate WritesTo<T>(table: map<Id, T>, id: Option<Id>, i: Id) {
    && 0 !in table
    && 1 <= i
    && (id.Some? ==> id.value == i && i in table)
    && (id.None? ==> i !in table)
  }

  /** Excluding id 0 (a new row) or the edited id both count exactly the rows other than `i`. */
  lemma SelfExclusion<T>(table: map<Id, T>, id: Option<Id>, i: Id, col: Column, k: Id)
    requires WritesTo(table, id, i) && col.Keys <= table.Keys
    ensures Others(col, k, id.GetOr(0)) == Others(col, k, i)
  {
  }

  lemma LoanColumnsAfterWrite(loans: Loans, i: Id, row: Loan)
    ensures row.Open() ==>
              && LoanMembers(loans[i := row]) == LoanMembers(loans)[i := row.member]
              && LoanBooks(loans[i := row]) == LoanBooks(loans)[i := row.book]
    ensures !row.Open() ==>
              && Shrunk(LoanMembers(loans), LoanMembers(loans[i := row]))
              && Shrunk(LoanBooks(loans), LoanBooks(loans[i := row]))
  {
  }

  lemma LoanQueries(loans: Loans, m: Id, b: Id, self: Id)
    ensures OpenLoansOfMember(loans, m, self) == Others(LoanMembers(loans), m, self)
    ensures OpenLoansOfBook(loans, b, self) == Others(LoanBooks(loans), b, self)
    ensures OpenLoansOn(loans, b) == Holders(LoanBooks(loans), b)
  {
  }

  lemma ReservationQueries(reservations: Reservations, m: Id, b: Id, self: Id)
    ensures ReservationsOfMember(reservations, m, self) == Others(ReservationMembers(reservations), m, self)
    ensures ReservationsOfBook(reservations, b, self) == Others(ReservationBooks(reservations), b, self)
  {
  }

  /** The form as the row it would be saved as. */
  ghost predicate FormOfLoan(form: LoanForm, row: Loan) {
    form.member == Some(row.member) && form.book == Some(row.book) && form.returned == row.returned
  }

  ghost predicate FormOfReservation(form: ReservationForm, row: Reservation) {
    form.member == Some(row.member) && form.book == Some(row.book)
  }

  ghost function RaisedIf(broken: bool, message: Message, path: Field): seq<Violation> {
    if broken then [Violation(message, path)] else []
  }

  /**
   From any tables whatsoever, each loan violation is raised exactly when the saved row would
   leave its own member, or its own book, above the limit; the member's comes first, each at most once.
   */
  lemma LoanRulesExact(loans: Loans, form: LoanForm, i: Id, row: Loan)
    requires WritesTo(loans, form.id, i) && FormOfLoan(form, row)
    ensures var after := loans[i := row]; var raised := LoanViolations(loans, form);
            && (Violation(MaxLoansReached, MemberField) in raised <==>
                row.Open() && |Holders(LoanMembers(after), row.member)| > MAX_LOANS)
            && (Violation(BookUnavailable, BookField) in raised <==>
                row.Open() && |Holders(LoanBooks(after), row.book)| > MAX_LOANS_PER_BOOK)
            && (raised == [] <==>
                (row.Open() ==> && |Holders(LoanMembers(after), row.member)| <= MAX_LOANS
                                && |Holders(LoanBooks(after), row.book)| <= MAX_LOANS_PER_BOOK))
            && raised == RaisedIf(row.Open() && |Holders(LoanMembers(after), row.member)| > MAX_LOANS, MaxLoansReached, MemberField)
                         + RaisedIf(row.Open() && |Holders(LoanBooks(after), row.book)| > MAX_LOANS_PER_BOOK, BookUnavailable, BookField)
  {
    var self := form.id.GetOr(0);
    LoanQueries(loans, row.member, row.book, self);
    SelfExclusion(loans, form.id, i, LoanMembers(loans), row.member);
    SelfExclusion(loans, form.id, i, LoanBooks(loans), row.book);
    LoanColumnsAfterWrite(loans, i, row);
    WriteCount(LoanMembers(loans), i, row.member);
    WriteCount(LoanBooks(loans), i, row.book);
  }

  /** Within limits, the loan validator accepts exactly the saves that stay within limits. */
  lemma LoanValidatorExact(loans: Loans, form: LoanForm, i: Id, row: Loan)
    requires WritesTo(loans, form.id, i) && FormOfLoan(form, row)
    requires LoansWithinLimits(loans)
    ensures LoanViolations(loans, form) == [] <==> LoansWithinLimits(loans[i := row])
  {
    LoanRulesExact(loans, form, i, row);
    LoanColumnsAfterWrite(loans, i, row);
    if row.Open() {
      WriteKeepsWithin(LoanMembers(loans), i, row.member, MAX_LOANS);
      WriteKeepsWithin(LoanBooks(loans), i, row.book, MAX_LOANS_PER_BOOK);
    } else {
      ShrunkKeepsWithin(LoanMembers(loans), LoanMembers(loans[i := row]), MAX_LOANS);
      ShrunkKeepsWithin(LoanBooks(loans), LoanBooks(loans[i := row]), MAX_LOANS_PER_BOOK);
    }
  }

  lemma ReservationColumnsAfterWrite(reservations: Reservations, i: Id, row: Reservation)
    ensures ReservationMembers(reservations[i := row]) == ReservationMembers(reservations)[i := row.member]
    ensures ReservationBooks(reservations[i := row]) == ReservationBooks(reservations)[i := row.book]
  {
  }

  lemma ReservationRulesExact(db: Db, form: ReservationForm, i: Id, row: Reservation)
    requires WritesTo(db.reservations, form.id, i) && FormOfReservation(form, row)
    ensures var after := db.reservations[i := row]; var raised := ReservationViolations(db, form);
            && (Violation(MaxReservationsReached, MemberField) in raised <==>
                |Holders(ReservationMembers(after), row.member)| > MAX_RESERVATIONS)
            && (Violation(AlreadyReserved, BookField) in raised <==>
                |Holders(ReservationBooks(after), row.book)| > MAX_RESERVATIONS_PER_BOOK)
            && (Violation(AlreadyLent, BookField) in raised <==> OpenLoansOn(db.loans, row.book) != {})
            && (raised == [] <==>
                && |Holders(ReservationMembers(after), row.member)| <= MAX_RESERVATIONS
                && |Holders(ReservationBooks(after), row.book)| <= MAX_RESERVATIONS_PER_BOOK
                && OpenLoansOn(db.loans, row.book) == {})
            && raised == RaisedIf(|Holders(ReservationMembers(after), row.member)| > MAX_RESERVATIONS, MaxReservationsReached, MemberField)
                         + RaisedIf(|Holders(ReservationBooks(after), row.book)| > MAX_RESERVATIONS_PER_BOOK, AlreadyReserved, BookField)
                         + RaisedIf(OpenLoansOn(db.loans, row.book) != {}, AlreadyLent, BookField)
  {
    var rs := db.reservations;
    ReservationQueries(rs, row.member, row.book, form.id.GetOr(0));
    SelfExclusion(rs, form.id, i, ReservationMembers(rs), row.member);
    SelfExclusion(rs, form.id, i, ReservationBooks(rs), row.book);
    ReservationColumnsAfterWrite(rs, i, row);
    WriteCount(ReservationMembers(rs), i, row.member);
    WriteCount(ReservationBooks(rs), i, row.book);
  }

  /**
   Within limits, the reservation validator accepts exactly the saves that stay within the
   reservation limits and whose book has no open loan.
   */
  lemma ReservationValidatorExact(db: Db, form: ReservationForm, i: Id, row: Reservation)
    requires WritesTo(db.reservations, form.id, i) && FormOfReservation(form, row)
    requires ReservationsWithinLimits(db.reservations)
    ensures ReservationViolations(db, form) == [] <==>
            ReservationsWithinLimits(db.reservations[i := row]) && OpenLoansOn(db.loans, row.book) == {}
  {
    ReservationRulesExact(db, form, i, row);
    ReservationColumnsAfterWrite(db.reservations, i, row);
    WriteKeepsWithin(ReservationMembers(db.reservations), i, row.member, MAX_RESERVATIONS);
    WriteKeepsWithin(ReservationBooks(db.reservations), i, row.book, MAX_RESERVATIONS_PER_BOOK);
  }

  // ------------------------------------------------------------ double counting

  lemma ColumnTotal(col: Column, keys: set<Id>, limit: nat)
    requires KeysIn(col, keys) && Within(col, limit)
    ensures |col.Keys| <= limit * |keys|
  {
    RowsBound(col, keys, limit);
  }

  /** The rules bound the whole library: by its members and by its books. */
  lemma TotalsBounded(db: Db)
    requires Schema(db) && WithinLimits(db)
    ensures |LoanMembers(db.loans)| <= Min(MAX_LOANS * |db.members|, |db.books|)
    ensures |db.reservations| <= Min(MAX_RESERVATIONS * |db.members|, |db.books|)
  {
    var open := set i | i in db.loans && db.loans[i].Open();
    assert LoanMembers(db.loans).Keys == open && LoanBooks(db.loans).Keys == open;
    ColumnTotal(LoanMembers(db.loans), db.members, MAX_LOANS);
    ColumnTotal(LoanBooks(db.loans), db.books, MAX_LOANS_PER_BOOK);
    assert ReservationMembers(db.reservations).Keys == db.reservations.Keys;
    assert ReservationBooks(db.reservations).Keys == db.reservations.Keys;
    ColumnTotal(ReservationMembers(db.reservations), db.members, MAX_RESERVATIONS);
    ColumnTotal(ReservationBooks(db.reservations), db.books, MAX_RESERVATIONS_PER_BOOK);
  }
}
