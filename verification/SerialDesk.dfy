/**
 The circulation desk as a state machine in which every request runs to completion before the
 next one starts. The requests are those of the administration screens (create, edit, return,
 delete, convert a reservation into a loan) and of the member API (reserve, cancel). The main
 results hold over whole runs and from any start state, including tables that were filled without
 validation.
 */
module SerialDesk {
  import opened Wrappers
  import opened Numbers
  import opened Columns
  import opened Circulation

  datatype Request =
    | CreateLoan(loan: LoanForm, now: int)
    | EditLoan(id: Id, loan: LoanForm)
    | ReturnLoan(id: Id, now: int)
    | DeleteLoan(id: Id)
    | ConvertReservation(id: Id, now: int)
    | CreateReservation(reservation: ReservationForm)
    | Reserve(member: Id, book: Id, now: int)
    | EditReservation(id: Id, reservation: ReservationForm)
    | DeleteReservation(id: Id)
    | CancelReservation(id: Id, user: Id)

  predicate References(db: Db, member: Option<Id>, book: Option<Id>) {
    member.Some? && book.Some? && member.value in db.members && book.value in db.books
  }

  /** The loan a reservation would become, as an unsaved object. */
  function ConversionForm(r: Reservation, now: int): LoanForm {
    LoanForm(None, Some(r.member), Some(r.book), Some(now), None)
  }

  /** EmpruntCrudController::persistEntity counts open loans again, whatever the new return date. */
  predicate PersistRefuses(loans: Loans, member: Id, book: Id) {
    OpenLoansOn(loans, book) != {} || |OpenLoansOfMember(loans, member, 0)| >= 5
  }

  /** The API's findBy(utilisateur) and findOneBy(livre), which leave out no row. */
  function ReservationsHeldBy(rs: Reservations, member: Id): set<Id> {
    set i | i in rs && rs[i].member == member
  }

  function ReservationsOn(rs: Reservations, book: Id): set<Id> {
    set i | i in rs && rs[i].book == book
  }

  /** ReservationsController::create has its own copy of the reservation rules. */
  predicate ApiAccepts(db: Db, member: Id, book: Id) {
    && |ReservationsHeldBy(db.reservations, member)| < 3
    && ReservationsOn(db.reservations, book) == {}
    && OpenLoansOn(db.loans, book) == {}
  }

  /** Does the request take effect? Refused requests leave the tables as they are. */
  predicate Accepts(db: Db, req: Request) {
    match req
    case CreateLoan(f, _) =>
      && References(db, f.member, f.book)
      && LoanViolations(db.loans, f.(id := None)) == []
      && !PersistRefuses(db.loans, f.member.value, f.book.value)
    case EditLoan(id, f) =>
      && id in db.loans && References(db, f.member, f.book) && f.borrowed.Some?
      && LoanViolations(db.loans, f.(id := Some(id))) == []
    case ReturnLoan(id, _) => id in db.loans && db.loans[id].Open()
    case DeleteLoan(id) => id in db.loans
    case ConvertReservation(id, now) =>
      id in db.reservations && LoanViolations(db.loans, ConversionForm(db.reservations[id], now)) == []
    case CreateReservation(f) =>
      && References(db, f.member, f.book) && f.date.Some?
      && ReservationViolations(db, f.(id := None)) == []
    case Reserve(m, b, _) => m in db.members && b in db.books && ApiAccepts(db, m, b)
    case EditReservation(id, f) =>
      && id in db.reservations && References(db, f.member, f.book) && f.date.Some?
      && ReservationViolations(db, f.(id := Some(id))) == []
    case DeleteReservation(id) => id in db.reservations
    case CancelReservation(id, user) => id in db.reservations && db.reservations[id].member == user
  }

  /** Creating a loan removes one reservation of that member for that book, if there is any. */
  ghost predicate DropsOneMatch(rs: Reservations, rs': Reservations, member: Id, book: Id) {
    if exists i :: i in rs && rs[i].member == member && rs[i].book == book
    then exists i :: i in rs && rs[i].member == member && rs[i].book == book && rs' == rs - {i}
    else rs' == rs
  }

  function InsertLoan(db: Db, row: Loan): Db {
    db.(loans := db.loans[db.nextLoan := row], nextLoan := db.nextLoan + 1)
  }

  function InsertReservation(db: Db, row: Reservation): Db {
    db.(reservations := db.reservations[db.nextReservation := row], nextReservation := db.nextReservation + 1)
  }

  ghost predicate Effect(db: Db, req: Request, db': Db)
    requires Accepts(db, req)
  {
    match req
    case CreateLoan(f, now) =>
      var row := Loan(f.member.value, f.book.value, f.borrowed.GetOr(now), f.returned);
      && DropsOneMatch(db.reservations, db'.reservations, row.member, row.book)
      && db' == InsertLoan(db, row).(reservations := db'.reservations)
    case EditLoan(id, f) =>
      db' == db.(loans := db.loans[id := Loan(f.member.value, f.book.value, f.borrowed.value, f.returned)])
    case ReturnLoan(id, now) =>
      db' == db.(loans := db.loans[id := db.loans[id].(returned := Some(now))])
    case DeleteLoan(id) => db' == db.(loans := db.loans - {id})
    case ConvertReservation(id, now) =>
      var r := db.reservations[id];
      db' == InsertLoan(db, Loan(r.member, r.book, now, None)).(reservations := db.reservations - {id})
    case CreateReservation(f) =>
      db' == InsertReservation(db, Reservation(f.member.value, f.book.value, f.date.value))
    case Reserve(m, b, now) => db' == InsertReservation(db, Reservation(m, b, now))
    case EditReservation(id, f) =>
      db' == db.(reservations := db.reservations[id := Reservation(f.member.value, f.book.value, f.date.value)])
    case DeleteReservation(id) => db' == db.(reservations := db.reservations - {id})
    case CancelReservation(id, _) => db' == db.(reservations := db.reservations - {id})
  }

  ghost predicate Next(db: Db, req: Request, db': Db) {
    if Accepts(db, req) then Effect(db, req, db') else db' == db
  }

  /** `states[n+1]` is the outcome of `reqs[n]` in `states[n]`. */
  ghost predicate IsRun(states: seq<Db>, reqs: seq<Request>) {
    && |states| == |reqs| + 1
    && Schema(states[0])
    && forall n :: 0 <= n < |reqs| ==> Next(states[n], reqs[n], states[n + 1])
  }

  // ------------------------------------------------------------- single steps

  /** The reservation rules of the API and of the validator decide alike for a new reservation. */
  lemma ApiAgreesWithValidator(db: Db, m: Id, b: Id, date: Option<int>)
    requires Schema(db)
    ensures ApiAccepts(db, m, b) <==>
            ReservationViolations(db, ReservationForm(None, Some(m), Some(b), date)) == []
  {
    var rs := db.reservations;
    assert ReservationsHeldBy(rs, m) == ReservationsOfMember(rs, m, 0);
    assert ReservationsOn(rs, b) == ReservationsOfBook(rs, b, 0);
  }

  /**
   For an open loan the counts in persistEntity repeat the validator's; for one entered as already
   returned the validator is silent and they alone decide.
   */
  lemma CreateLoanDecision(db: Db, f: LoanForm, now: int)
    requires Schema(db) && References(db, f.member, f.book)
    ensures f.returned.None? ==>
              (Accepts(db, CreateLoan(f, now)) <==> LoanViolations(db.loans, f.(id := None)) == [])
    ensures f.returned.Some? ==>
              (Accepts(db, CreateLoan(f, now)) <==>
               LoanViolations(db.loans, f.(id := None, returned := None)) == [])
  {
    assert OpenLoansOn(db.loans, f.book.value) == OpenLoansOfBook(db.loans, f.book.value, 0);
  }

  /** The second half at a concrete input: a returned loan of a lent book passes the validator and is refused. */
  lemma ReturnedLoanOfLentBookIsRefused(db: Db, f: LoanForm, now: int)
    requires db == Db({1, 2}, {1}, map[1 := Loan(1, 1, 0, None)], 2, map[], 1)
    requires f == LoanForm(None, Some(2), Some(1), Some(0), Some(0))
    ensures Schema(db) && LoanViolations(db.loans, f) == [] && !Accepts(db, CreateLoan(f, now))
  {
    assert 1 in OpenLoansOn(db.loans, 1);
  }

  lemma LoanWriteStep(loans: Loans, form: LoanForm, i: Id, row: Loan)
    requires WritesTo(loans, form.id, i) && FormOfLoan(form, row)
    requires LoanViolations(loans, form) == []
    ensures ColumnStep(LoanMembers(loans), LoanMembers(loans[i := row]), MAX_LOANS)
    ensures ColumnStep(LoanBooks(loans), LoanBooks(loans[i := row]), MAX_LOANS_PER_BOOK)
  {
    LoanColumnsAfterWrite(loans, i, row);
    LoanQueries(loans, row.member, row.book, form.id.GetOr(0));
    SelfExclusion(loans, form.id, i, LoanMembers(loans), row.member);
    SelfExclusion(loans, form.id, i, LoanBooks(loans), row.book);
  }

  lemma ReservationWriteStep(db: Db, form: ReservationForm, i: Id, row: Reservation)
    requires WritesTo(db.reservations, form.id, i) && FormOfReservation(form, row)
    requires ReservationViolations(db, form) == []
    ensures var rs := db.reservations;
            && ColumnStep(ReservationMembers(rs), ReservationMembers(rs[i := row]), MAX_RESERVATIONS)
            && ColumnStep(ReservationBooks(rs), ReservationBooks(rs[i := row]), MAX_RESERVATIONS_PER_BOOK)
  {
    var rs := db.reservations;
    ReservationColumnsAfterWrite(rs, i, row);
    ReservationQueries(rs, row.member, row.book, form.id.GetOr(0));
    SelfExclusion(rs, form.id, i, ReservationMembers(rs), row.member);
    SelfExclusion(rs, form.id, i, ReservationBooks(rs), row.book);
  }

  lemma StepKeepsSchema(db: Db, req: Request, db': Db)
    requires Schema(db) && Next(db, req, db')
    ensures Schema(db') && db'.members == db.members && db'.books == db.books
  {
  }

  lemma LoanColumnsStep(db: Db, req: Request, db': Db)
    requires Schema(db) && Next(db, req, db')
    ensures ColumnStep(LoanMembers(db.loans), LoanMembers(db'.loans), MAX_LOANS)
    ensures ColumnStep(LoanBooks(db.loans), LoanBooks(db'.loans), MAX_LOANS_PER_BOOK)
  {
    if Accepts(db, req) {
      match req
      case CreateLoan(f, now) =>
        LoanWriteStep(db.loans, f.(id := None), db.nextLoan, db'.loans[db.nextLoan]);
      case EditLoan(id, f) =>
        LoanWriteStep(db.loans, f.(id := Some(id)), id, db'.loans[id]);
      case ConvertReservation(id, now) =>
        LoanWriteStep(db.loans, ConversionForm(db.reservations[id], now), db.nextLoan, db'.loans[db.nextLoan]);
      case _ =>
    }
  }

  lemma ReservationColumnsStep(db: Db, req: Request, db': Db)
    requires Schema(db) && Next(db, req, db')
    ensures var rs, rs' := db.reservations, db'.reservations;
            && ColumnStep(ReservationMembers(rs), ReservationMembers(rs'), MAX_RESERVATIONS)
            && ColumnStep(ReservationBooks(rs), ReservationBooks(rs'), MAX_RESERVATIONS_PER_BOOK)
  {
    if Accepts(db, req) {
      match req
      case CreateReservation(f) =>
        ReservationWriteStep(db, f.(id := None), db.nextReservation, db'.reservations[db.nextReservation]);
      case Reserve(m, b, now) =>
        var f := ReservationForm(None, Some(m), Some(b), Some(now));
        ApiAgreesWithValidator(db, m, b, Some(now));
        ReservationWriteStep(db, f, db.nextReservation, db'.reservations[db.nextReservation]);
      case EditReservation(id, f) =>
        ReservationWriteStep(db, f.(id := Some(id)), id, db'.reservations[id]);
      case _ =>
    }
  }

  // ------------------------------------------- what each request does to the tables

  /** `db'` differs from `db` in row `l` of the loans at most; the counters and all other rows are the same. */
  ghost predicate OnlyLoan(db: Db, db': Db, l: Id) {
    db'.(loans := db.loans) == db && db'.loans - {l} == db.loans - {l}
  }

  ghost predicate OnlyReservation(db: Db, db': Db, r: Id) {
    db'.(reservations := db.reservations) == db && db'.reservations - {r} == db.reservations - {r}
  }

  /** A member cancels their own reservations and nobody else's. */
  lemma CancelNeedsOwner(db: Db, id: Id, user: Id, db': Db)
    requires Next(db, CancelReservation(id, user), db')
    ensures if id in db.reservations && db.reservations[id].member == user
            then OnlyReservation(db, db', id) && id !in db'.reservations
            else db' == db
  {
  }

  /** Only an open loan is returned; all that changes is its return date. */
  lemma ReturnNeedsOpenLoan(db: Db, id: Id, now: int, db': Db)
    requires Next(db, ReturnLoan(id, now), db')
    ensures if id in db.loans && db.loans[id].returned == None
            then && OnlyLoan(db, db', id) && id in db'.loans && db'.loans[id].returned == Some(now)
                 && db'.loans[id].(returned := None) == db.loans[id]
            else db' == db
  {
  }

  /** The administration deletes any row, and that row only. */
  lemma DeleteTakesOneRow(db: Db, id: Id, db': Db)
    ensures Next(db, DeleteLoan(id), db') ==> OnlyLoan(db, db', id) && id !in db'.loans
    ensures Next(db, DeleteReservation(id), db') ==> OnlyReservation(db, db', id) && id !in db'.reservations
  {
  }

  /** Written into row `i`, the loan is closed or leaves its member and its book within their limits. */
  ghost predicate LoanFits(loans: Loans, i: Id, row: Loan) {
    row.Open() ==>
      && |Holders(LoanMembers(loans[i := row]), row.member)| <= MAX_LOANS
      && |Holders(LoanBooks(loans[i := row]), row.book)| <= MAX_LOANS_PER_BOOK
  }

  ghost predicate ReservationFits(db: Db, i: Id, row: Reservation) {
    && |Holders(ReservationMembers(db.reservations[i := row]), row.member)| <= MAX_RESERVATIONS
    && |Holders(ReservationBooks(db.reservations[i := row]), row.book)| <= MAX_RESERVATIONS_PER_BOOK
    && forall l :: l in db.loans && db.loans[l].book == row.book ==> db.loans[l].returned.Some?
  }

  /** An edit writes the whole form to its row, or nothing. */
  lemma EditLoanWritesForm(db: Db, id: Id, f: LoanForm, db': Db)
    requires Schema(db) && Next(db, EditLoan(id, f), db')
    ensures if id in db.loans && References(db, f.member, f.book) && f.borrowed.Some?
               && LoanFits(db.loans, id, Loan(f.member.value, f.book.value, f.borrowed.value, f.returned))
            then && OnlyLoan(db, db', id) && id in db'.loans
                 && Some(db'.loans[id].member) == f.member && Some(db'.loans[id].book) == f.book
                 && Some(db'.loans[id].borrowed) == f.borrowed && db'.loans[id].returned == f.returned
            else db' == db
  {
    if id in db.loans && References(db, f.member, f.book) && f.borrowed.Some? {
      LoanRulesExact(db.loans, f.(id := Some(id)), id, Loan(f.member.value, f.book.value, f.borrowed.value, f.returned));
    }
  }

  lemma EditReservationWritesForm(db: Db, id: Id, f: ReservationForm, db': Db)
    requires Schema(db) && Next(db, EditReservation(id, f), db')
    ensures if id in db.reservations && References(db, f.member, f.book) && f.date.Some?
               && ReservationFits(db, id, Reservation(f.member.value, f.book.value, f.date.value))
            then && OnlyReservation(db, db', id) && id in db'.reservations
                 && Some(db'.reservations[id].member) == f.member && Some(db'.reservations[id].book) == f.book
                 && Some(db'.reservations[id].date) == f.date
            else db' == db
  {
    if id in db.reservations && References(db, f.member, f.book) && f.date.Some? {
      var row := Reservation(f.member.value, f.book.value, f.date.value);
      ReservationRulesExact(db, f.(id := Some(id)), id, row);
      NoOpenLoan(db.loans, row.book);
    }
  }

  lemma NoOpenLoan(loans: Loans, b: Id)
    ensures OpenLoansOn(loans, b) == {} <==> forall l :: l in loans && loans[l].book == b ==> loans[l].returned.Some?
  {
    assert forall l :: l in loans && loans[l].book == b && loans[l].returned.None? ==> l in OpenLoansOn(loans, b);
  }

  /**
   A new loan is stored iff an open loan would fit, whatever its return date; it takes the next id and
   the form's values, with today for a missing loan date.
   */
  lemma CreateLoanWritesForm(db: Db, f: LoanForm, now: int, db': Db)
    requires Schema(db) && Next(db, CreateLoan(f, now), db')
    ensures if References(db, f.member, f.book)
               && LoanFits(db.loans, db.nextLoan, Loan(f.member.value, f.book.value, now, None))
            then && OnlyLoan(db, db'.(nextLoan := db.nextLoan, reservations := db.reservations), db.nextLoan)
                 && db'.nextLoan == db.nextLoan + 1 && db.nextLoan in db'.loans
                 && var row := db'.loans[db.nextLoan];
                    && Some(row.member) == f.member && Some(row.book) == f.book && row.returned == f.returned
                    && (f.borrowed.Some? ==> row.borrowed == f.borrowed.value)
                    && (f.borrowed.None? ==> row.borrowed == now)
            else db' == db
  {
    if References(db, f.member, f.book) {
      var open := f.(id := None, returned := None);
      CreateLoanDecision(db, f, now);
      LoanRulesExact(db.loans, open, db.nextLoan, Loan(f.member.value, f.book.value, now, None));
    }
  }

  /** A conversion lends the reserved book to the member who reserved it, from now, if that loan fits. */
  lemma ConversionLendsReservedBook(db: Db, id: Id, now: int, db': Db)
    requires Schema(db) && Next(db, ConvertReservation(id, now), db')
    ensures if id in db.reservations
               && LoanFits(db.loans, db.nextLoan, Loan(db.reservations[id].member, db.reservations[id].book, now, None))
            then && OnlyLoan(db, db'.(nextLoan := db.nextLoan, reservations := db.reservations), db.nextLoan)
                 && OnlyReservation(db, db'.(nextLoan := db.nextLoan, loans := db.loans), id)
                 && db'.nextLoan == db.nextLoan + 1 && db.nextLoan in db'.loans && id !in db'.reservations
                 && var row := db'.loans[db.nextLoan];
                    && row.member == db.reservations[id].member && row.book == db.reservations[id].book
                    && row.borrowed == now && row.returned == None
            else db' == db
  {
    if id in db.reservations {
      var r := db.reservations[id];
      LoanRulesExact(db.loans, ConversionForm(r, now), db.nextLoan, Loan(r.member, r.book, now, None));
    }
  }

  /** A new reservation, from the administration or from the API, is stored under the next id iff it fits. */
  lemma NewReservationIsStored(db: Db, f: ReservationForm, req: Request, db': Db)
    requires Schema(db) && Next(db, req, db')
    requires req == CreateReservation(f) ||
             (f.member.Some? && f.book.Some? && f.date.Some? && req == Reserve(f.member.value, f.book.value, f.date.value))
    ensures if References(db, f.member, f.book) && f.date.Some?
               && ReservationFits(db, db.nextReservation, Reservation(f.member.value, f.book.value, f.date.value))
            then && OnlyReservation(db, db'.(nextReservation := db.nextReservation), db.nextReservation)
                 && db'.nextReservation == db.nextReservation + 1 && db.nextReservation in db'.reservations
                 && var row := db'.reservations[db.nextReservation];
                    Some(row.member) == f.member && Some(row.book) == f.book && Some(row.date) == f.date
            else db' == db
  {
    if References(db, f.member, f.book) && f.date.Some? {
      var row := Reservation(f.member.value, f.book.value, f.date.value);
      var form := f.(id := None);
      ReservationRulesExact(db, form, db.nextReservation, row);
      ApiAgreesWithValidator(db, row.member, row.book, f.date);
      NoOpenLoan(db.loans, row.book);
    }
  }

  // --------------------------------------------------------------- every run

  /** No member and no book is further above its limit in `db'` than in `db`. */
  ghost predicate NoMoreExcess(db: Db, db': Db) {
    forall k ::
      && Excess(LoanMembers(db'.loans), k, MAX_LOANS) <= Excess(LoanMembers(db.loans), k, MAX_LOANS)
      && Excess(LoanBooks(db'.loans), k, MAX_LOANS_PER_BOOK) <= Excess(LoanBooks(db.loans), k, MAX_LOANS_PER_BOOK)
      && Excess(ReservationMembers(db'.reservations), k, MAX_RESERVATIONS)
         <= Excess(ReservationMembers(db.reservations), k, MAX_RESERVATIONS)
      && Excess(ReservationBooks(db'.reservations), k, MAX_RESERVATIONS_PER_BOOK)
         <= Excess(ReservationBooks(db.reservations), k, MAX_RESERVATIONS_PER_BOOK)
  }

  lemma StepAddsNoExcess(db: Db, req: Request, db': Db)
    requires Schema(db) && Next(db, req, db')
    ensures NoMoreExcess(db, db')
  {
    LoanColumnsStep(db, req, db');
    ReservationColumnsStep(db, req, db');
    forall k: Id
      ensures && Excess(LoanMembers(db'.loans), k, MAX_LOANS) <= Excess(LoanMembers(db.loans), k, MAX_LOANS)
              && Excess(LoanBooks(db'.loans), k, MAX_LOANS_PER_BOOK) <= Excess(LoanBooks(db.loans), k, MAX_LOANS_PER_BOOK)
              && Excess(ReservationMembers(db'.reservations), k, MAX_RESERVATIONS)
                 <= Excess(ReservationMembers(db.reservations), k, MAX_RESERVATIONS)
              && Excess(ReservationBooks(db'.reservations), k, MAX_RESERVATIONS_PER_BOOK)
                 <= Excess(ReservationBooks(db.reservations), k, MAX_RESERVATIONS_PER_BOOK)
    {
      StepKeepsExcess(LoanMembers(db.loans), LoanMembers(db'.loans), MAX_LOANS, k);
      StepKeepsExcess(LoanBooks(db.loans), LoanBooks(db'.loans), MAX_LOANS_PER_BOOK, k);
      StepKeepsExcess(ReservationMembers(db.reservations), ReservationMembers(db'.reservations), MAX_RESERVATIONS, k);
      StepKeepsExcess(ReservationBooks(db.reservations), ReservationBooks(db'.reservations), MAX_RESERVATIONS_PER_BOOK, k);
    }
  }

  /** From any tables, over any run, between any two moments: excess never grows. */
  lemma {:induction false} RunAddsNoExcess(states: seq<Db>, reqs: seq<Request>, start: nat, end: nat)
    requires IsRun(states, reqs) && start <= end < |states|
    ensures Schema(states[end]) && NoMoreExcess(states[start], states[end])
    ensures states[end].members == states[0].members && states[end].books == states[0].books
    decreases end
  {
    if end == 0 {
    } else {
      RunAddsNoExcess(states, reqs, if start < end then start else end - 1, end - 1);
      StepKeepsSchema(states[end - 1], reqs[end - 1], states[end]);
      StepAddsNoExcess(states[end - 1], reqs[end - 1], states[end]);
    }
  }

  lemma NoMoreExcessKeepsWithin(db: Db, db': Db)
    requires WithinLimits(db) && NoMoreExcess(db, db')
    ensures WithinLimits(db')
  {
    NoExcessIsWithin(LoanMembers(db.loans), LoanMembers(db'.loans), MAX_LOANS);
    NoExcessIsWithin(LoanBooks(db.loans), LoanBooks(db'.loans), MAX_LOANS_PER_BOOK);
    NoExcessIsWithin(ReservationMembers(db.reservations), ReservationMembers(db'.reservations), MAX_RESERVATIONS);
    NoExcessIsWithin(ReservationBooks(db.reservations), ReservationBooks(db'.reservations), MAX_RESERVATIONS_PER_BOOK);
  }

  /** Once the tables are within limits, every later state of the run is, and its totals are bounded. */
  lemma OnceWithinAlwaysWithin(states: seq<Db>, reqs: seq<Request>, start: nat, end: nat)
    requires IsRun(states, reqs) && start <= end < |states|
    requires WithinLimits(states[start])
    ensures WithinLimits(states[end])
    ensures var db := states[end];
            && |LoanMembers(db.loans)| <= Min(MAX_LOANS * |states[0].members|, |states[0].books|)
            && |db.reservations| <= Min(MAX_RESERVATIONS * |states[0].members|, |states[0].books|)
  {
    RunAddsNoExcess(states, reqs, start, end);
    NoMoreExcessKeepsWithin(states[start], states[end]);
    TotalsBounded(states[end]);
  }

  // -------------------------------------------- books both reserved and on loan

  ghost predicate OpenOn(db: Db, l: Id, b: Id) {
    l in db.loans && db.loans[l].Open() && db.loans[l].book == b
  }

  ghost predicate ReservedOn(db: Db, r: Id, b: Id) {
    r in db.reservations && db.reservations[r].book == b
  }

  /** The request saves reservation `r`, as a new row or as an edit. */
  ghost predicate Saves(db: Db, req: Request, r: Id) {
    && Accepts(db, req)
    && (match req
        case CreateReservation(_) => r == db.nextReservation
        case Reserve(_, _, _) => r == db.nextReservation
        case EditReservation(id, _) => r == id
        case _ => false)
  }

  lemma SavedBookIsNotLent(db: Db, req: Request, db': Db, r: Id, l: Id)
    requires Next(db, req, db') && Saves(db, req, r)
    ensures r in db'.reservations && db'.loans == db.loans
    ensures !OpenOn(db', l, db'.reservations[r].book)
  {
    assert l !in OpenLoansOn(db.loans, db'.reservations[r].book);
  }

  lemma OnlySavesChangeReservedBook(db: Db, req: Request, db': Db, r: Id, b: Id)
    requires Schema(db) && Next(db, req, db') && ReservedOn(db', r, b) && !Saves(db, req, r)
    ensures ReservedOn(db, r, b)
  {
  }

  /** Loan `l` became open on `b` at step `n` and stayed so; `r` held `b` throughout, unsaved. */
  ghost predicate LentAfterSave(states: seq<Db>, reqs: seq<Request>, n: nat, end: nat, l: Id, r: Id, b: Id)
    requires IsRun(states, reqs) && n < end < |states|
  {
    && !OpenOn(states[n], l, b)
    && (forall j :: n < j <= end ==> OpenOn(states[j], l, b))
    && (forall j :: n <= j <= end ==> ReservedOn(states[j], r, b))
    && (forall j :: n <= j < end ==> !Saves(states[j], reqs[j], r))
  }

  /** The clash was already in the start state and nothing touched it since. */
  ghost predicate ClashSinceStart(states: seq<Db>, reqs: seq<Request>, end: nat, l: Id, r: Id, b: Id)
    requires IsRun(states, reqs) && end < |states|
  {
    && (forall j :: 0 <= j <= end ==> OpenOn(states[j], l, b) && ReservedOn(states[j], r, b))
    && (forall j :: 0 <= j < end ==> !Saves(states[j], reqs[j], r))
  }

  lemma LentAfterSaveLasts(states: seq<Db>, reqs: seq<Request>, n: nat, last: nat, l: Id, r: Id, b: Id)
    requires IsRun(states, reqs) && n < last && last + 1 < |states|
    requires LentAfterSave(states, reqs, n, last, l, r, b)
    requires OpenOn(states[last + 1], l, b) && ReservedOn(states[last + 1], r, b) && !Saves(states[last], reqs[last], r)
    ensures LentAfterSave(states, reqs, n, last + 1, l, r, b)
  {
  }

  lemma LentAtLastStep(states: seq<Db>, reqs: seq<Request>, last: nat, l: Id, r: Id, b: Id)
    requires IsRun(states, reqs) && last + 1 < |states|
    requires !OpenOn(states[last], l, b) && ReservedOn(states[last], r, b) && !Saves(states[last], reqs[last], r)
    requires OpenOn(states[last + 1], l, b) && ReservedOn(states[last + 1], r, b)
    ensures LentAfterSave(states, reqs, last, last + 1, l, r, b)
  {
  }

  lemma ClashLasts(states: seq<Db>, reqs: seq<Request>, last: nat, l: Id, r: Id, b: Id)
    requires IsRun(states, reqs) && last + 1 < |states| && ClashSinceStart(states, reqs, last, l, r, b)
    requires OpenOn(states[last + 1], l, b) && ReservedOn(states[last + 1], r, b) && !Saves(states[last], reqs[last], r)
    ensures ClashSinceStart(states, reqs, last + 1, l, r, b)
  {
  }

  /** What an accepted save rules out, and what any other step keeps. */
  lemma ClashBefore(db: Db, req: Request, db': Db, l: Id, r: Id, b: Id)
    requires Schema(db) && Next(db, req, db') && OpenOn(db', l, b) && ReservedOn(db', r, b)
    ensures !Saves(db, req, r) && ReservedOn(db, r, b)
  {
    if Saves(db, req, r) {
      SavedBookIsNotLent(db, req, db', r, l);
      assert false;
    }
    OnlySavesChangeReservedBook(db, req, db', r, b);
  }

  /**
   Whenever a book is both reserved and on loan, the loan became open on that book at a step after
   the last accepted save of the reservation, unless the start state had the same clash.
   */
  lemma {:induction false} ClashMeansLentAfterSave(states: seq<Db>, reqs: seq<Request>, end: nat, l: Id, r: Id, b: Id)
    requires IsRun(states, reqs) && end < |states|
    requires OpenOn(states[end], l, b) && ReservedOn(states[end], r, b)
    ensures || ClashSinceStart(states, reqs, end, l, r, b)
            || exists n: nat :: n < end && LentAfterSave(states, reqs, n, end, l, r, b)
    decreases end
  {
    if end == 0 {
    } else {
      var last := end - 1;
      RunAddsNoExcess(states, reqs, last, last);
      ClashBefore(states[last], reqs[last], states[end], l, r, b);
      if OpenOn(states[last], l, b) {
        ClashMeansLentAfterSave(states, reqs, last, l, r, b);
        if ClashSinceStart(states, reqs, last, l, r, b) {
          ClashLasts(states, reqs, last, l, r, b);
        } else {
          var n: nat :| n < last && LentAfterSave(states, reqs, n, last, l, r, b);
          LentAfterSaveLasts(states, reqs, n, last, l, r, b);
        }
      } else {
        LentAtLastStep(states, reqs, last, l, r, b);
      }
    }
  }

  // ------------------------------------------------------------- conversion

  ghost function LoanClaims(loans: Loans, m: Id, b: Id): set<Id> {
    set i | i in loans && loans[i].Open() && loans[i].member == m && loans[i].book == b
  }

  ghost function ReservationClaims(rs: Reservations, m: Id, b: Id): set<Id> {
    set i | i in rs && rs[i].member == m && rs[i].book == b
  }

  /** The claims a member has on a book, open loans and reservations together. */
  ghost function Claims(db: Db, m: Id, b: Id): nat {
    |LoanClaims(db.loans, m, b)| + |ReservationClaims(db.reservations, m, b)|
  }

  lemma LentClaim(loans: Loans, i: Id, row: Loan, m: Id, b: Id)
    requires i !in loans && row.Open()
    ensures |LoanClaims(loans[i := row], m, b)|
            == |LoanClaims(loans, m, b)| + if row.member == m && row.book == b then 1 else 0
  {
    if row.member == m && row.book == b {
      assert LoanClaims(loans[i := row], m, b) == LoanClaims(loans, m, b) + {i};
    } else {
      assert LoanClaims(loans[i := row], m, b) == LoanClaims(loans, m, b);
    }
  }

  lemma DroppedClaim(rs: Reservations, i: Id, m: Id, b: Id)
    requires i in rs
    ensures |ReservationClaims(rs - {i}, m, b)|
            == |ReservationClaims(rs, m, b)| - if rs[i].member == m && rs[i].book == b then 1 else 0
  {
    assert ReservationClaims(rs - {i}, m, b) == ReservationClaims(rs, m, b) - {i};
  }

  /**
   Creating a loan takes one of the borrower's own reservations of that book, if there is any, and no
   other reservation; within limits none is left for that pair.
   */
  lemma CreateLoanConsumesOwnReservation(db: Db, f: LoanForm, now: int, db': Db)
    requires Next(db, CreateLoan(f, now), db') && Accepts(db, CreateLoan(f, now))
    ensures var before, after := ReservationClaims(db.reservations, f.member.value, f.book.value),
                                 ReservationClaims(db'.reservations, f.member.value, f.book.value);
            && |after| == (if before == {} then 0 else |before| - 1)
            && (ReservationsWithinLimits(db.reservations) ==> after == {})
    ensures forall r :: r in db.reservations
              && !(db.reservations[r].member == f.member.value && db.reservations[r].book == f.book.value)
              ==> r in db'.reservations && db'.reservations[r] == db.reservations[r]
    ensures db'.reservations.Keys <= db.reservations.Keys
  {
    var m, b, rs := f.member.value, f.book.value, db.reservations;
    var claims := ReservationClaims(rs, m, b);
    if i :| i in rs && rs[i].member == m && rs[i].book == b && db'.reservations == rs - {i} {
      assert i in claims;
      DroppedClaim(rs, i, m, b);
    } else {
      assert forall i :: i in rs ==> i !in claims;
    }
    if ReservationsWithinLimits(rs) {
      SubsetSize(claims, Holders(ReservationBooks(rs), b));
      assert |Holders(ReservationBooks(rs), b)| <= 1;
    }
  }

  lemma SingleMember(s: set<Id>, x: Id)
    requires x in s && |s| <= 1
    ensures s == {x}
  {
    assert |s - {x}| == 0;
  }

  /** Converting a reservation moves one claim from one table to the other; no claim appears or is lost. */
  lemma ConversionConservesClaims(db: Db, id: Id, now: int, db': Db, m: Id, b: Id)
    requires Schema(db) && Next(db, ConvertReservation(id, now), db')
    ensures Claims(db', m, b) == Claims(db, m, b)
    ensures Accepts(db, ConvertReservation(id, now)) && db.reservations[id].member == m && db.reservations[id].book == b ==>
              |LoanClaims(db'.loans, m, b)| == |LoanClaims(db.loans, m, b)| + 1
  {
    if Accepts(db, ConvertReservation(id, now)) {
      LentClaim(db.loans, db.nextLoan, db'.loans[db.nextLoan], m, b);
      DroppedClaim(db.reservations, id, m, b);
    }
  }

  // ------------------------------------------------------- the life of a row

  ghost predicate NamesLoan(req: Request, l: Id) {
    match req
    case EditLoan(id, _) => id == l
    case ReturnLoan(id, _) => id == l
    case DeleteLoan(id) => id == l
    case _ => false
  }

  ghost predicate NobodyNames(reqs: seq<Request>, start: nat, end: nat, l: Id) {
    forall n :: start <= n < end && n < |reqs| ==> !NamesLoan(reqs[n], l)
  }

  lemma UnnamedLoanStep(db: Db, req: Request, db': Db, l: Id)
    requires Schema(db) && Next(db, req, db') && l in db.loans && !NamesLoan(req, l)
    ensures l in db'.loans && db'.loans[l] == db.loans[l]
  {
  }

  /** Over every run, a loan stays as it is until a request names it. */
  lemma {:induction false} UnnamedLoanIsKept(states: seq<Db>, reqs: seq<Request>, start: nat, end: nat, l: Id)
    requires IsRun(states, reqs) && start <= end < |states|
    requires l in states[start].loans && NobodyNames(reqs, start, end, l)
    ensures l in states[end].loans && states[end].loans[l] == states[start].loans[l]
    decreases end
  {
    if end == start {
    } else {
      UnnamedLoanIsKept(states, reqs, start, end - 1, l);
      RunAddsNoExcess(states, reqs, end - 1, end - 1);
      UnnamedLoanStep(states[end - 1], reqs[end - 1], states[end], l);
    }
  }

  /** Nobody edits or deletes loan `l`; returns are allowed. */
  ghost predicate NobodyRewrites(reqs: seq<Request>, start: nat, end: nat, l: Id) {
    forall n :: start <= n < end && n < |reqs| ==> !(NamesLoan(reqs[n], l) && !reqs[n].ReturnLoan?)
  }

  /** Over every run, a returned loan keeps its first return date, and all else, until it is edited or deleted. */
  lemma {:induction false} ReturnedLoanIsKept(states: seq<Db>, reqs: seq<Request>, start: nat, end: nat, l: Id)
    requires IsRun(states, reqs) && start <= end < |states|
    requires l in states[start].loans && states[start].loans[l].returned.Some? && NobodyRewrites(reqs, start, end, l)
    ensures l in states[end].loans && states[end].loans[l] == states[start].loans[l]
    decreases end
  {
    if end == start {
    } else {
      var last := end - 1;
      ReturnedLoanIsKept(states, reqs, start, last, l);
      if reqs[last].ReturnLoan? {
        ReturnNeedsOpenLoan(states[last], reqs[last].id, reqs[last].now, states[end]);
        assert states[end].loans - {reqs[last].id} == states[last].loans - {reqs[last].id};
      } else {
        RunAddsNoExcess(states, reqs, last, last);
        UnnamedLoanStep(states[last], reqs[last], states[end], l);
      }
    }
  }

  /**
   Over every run: a loan created open and next named by its return, however much later, is returned
   successfully; that takes exactly its row out of the open loans, and from then on, until it is edited
   or deleted, it stays in the table as created, with that return date, even if it is returned again.
   */
  lemma LoanBecomesHistory(states: seq<Db>, reqs: seq<Request>, lend: nat, back: nat, end: nat, later: int)
    requires IsRun(states, reqs) && lend < back < end < |states|
    requires reqs[lend].CreateLoan? && reqs[lend].loan.returned.None? && Accepts(states[lend], reqs[lend])
    requires var id := states[lend].nextLoan;
             NobodyNames(reqs, lend + 1, back, id) && reqs[back] == ReturnLoan(id, later) && NobodyRewrites(reqs, back + 1, end, id)
    ensures var id, f := states[lend].nextLoan, reqs[lend].loan;
            && Accepts(states[back], reqs[back])
            && LoanMembers(states[back + 1].loans) == LoanMembers(states[back].loans) - {id}
            && LoanBooks(states[back + 1].loans) == LoanBooks(states[back].loans) - {id}
            && id in states[end].loans
            && states[end].loans[id] == Loan(f.member.value, f.book.value, f.borrowed.GetOr(reqs[lend].now), Some(later))
  {
    var id := states[lend].nextLoan;
    UnnamedLoanIsKept(states, reqs, lend + 1, back, id);
    ClosingRemovesRow(states[back], reqs[back], id, states[back + 1]);
    ReturnedLoanIsKept(states, reqs, back + 1, end, id);
  }

  /**
   What may end reservation `r` with contents `row`: its deletion, its conversion, its owner's cancel, or
   a loan of that book to that member.
   */
  ghost predicate MayEnd(req: Request, r: Id, row: Reservation) {
    match req
    case DeleteReservation(id) => id == r
    case ConvertReservation(id, _) => id == r
    case CancelReservation(id, user) => id == r && user == row.member
    case CreateLoan(f, _) => f.member == Some(row.member) && f.book == Some(row.book)
    case _ => false
  }

  lemma ReservationStep(db: Db, req: Request, db': Db, r: Id)
    requires Schema(db) && Next(db, req, db') && r in db.reservations
    ensures r !in db'.reservations ==> MayEnd(req, r, db.reservations[r])
    ensures r in db'.reservations && db'.reservations[r] != db.reservations[r] ==> req.EditReservation? && req.id == r
  {
  }

  /** Over every run, a reservation that is gone went at one step, by a request that may end it. */
  lemma {:induction false} ReservationEnds(states: seq<Db>, reqs: seq<Request>, start: nat, end: nat, r: Id) returns (n: nat)
    requires IsRun(states, reqs) && start <= end < |states|
    requires r in states[start].reservations && r !in states[end].reservations
    ensures start <= n < end && r in states[n].reservations && r !in states[n + 1].reservations
    ensures MayEnd(reqs[n], r, states[n].reservations[r])
    decreases end
  {
    n := end - 1;
    if r in states[n].reservations {
      RunAddsNoExcess(states, reqs, n, n);
      ReservationStep(states[n], reqs[n], states[end], r);
    } else {
      n := ReservationEnds(states, reqs, start, n, r);
    }
  }

  /** Over every run, a reservation that nobody edits stays as it is until a request that may end it. */
  lemma {:induction false} ReservationIsKept(states: seq<Db>, reqs: seq<Request>, start: nat, end: nat, r: Id)
    requires IsRun(states, reqs) && start <= end < |states| && r in states[start].reservations
    requires forall n :: start <= n < end ==>
               !MayEnd(reqs[n], r, states[start].reservations[r]) && !(reqs[n].EditReservation? && reqs[n].id == r)
    ensures r in states[end].reservations && states[end].reservations[r] == states[start].reservations[r]
    decreases end
  {
    if end == start {
    } else {
      ReservationIsKept(states, reqs, start, end - 1, r);
      RunAddsNoExcess(states, reqs, end - 1, end - 1);
      ReservationStep(states[end - 1], reqs[end - 1], states[end], r);
    }
  }

  /** Over every run, the id of a row that is gone never comes back, in either table. */
  lemma {:induction false} GoneIdsNeverReturn(states: seq<Db>, reqs: seq<Request>, start: nat, end: nat, i: Id)
    requires IsRun(states, reqs) && start <= end < |states|
    ensures i < states[start].nextLoan && i !in states[start].loans ==>
              i < states[end].nextLoan && i !in states[end].loans
    ensures i < states[start].nextReservation && i !in states[start].reservations ==>
              i < states[end].nextReservation && i !in states[end].reservations
    decreases end
  {
    if end == start {
    } else {
      GoneIdsNeverReturn(states, reqs, start, end - 1, i);
      GoneIdStep(states[end - 1], reqs[end - 1], states[end], i);
    }
  }

  lemma GoneIdStep(db: Db, req: Request, db': Db, i: Id)
    requires Next(db, req, db')
    ensures i < db.nextLoan && i !in db.loans ==> i < db'.nextLoan && i !in db'.loans
    ensures i < db.nextReservation && i !in db.reservations ==> i < db'.nextReservation && i !in db'.reservations
  {
  }

  lemma ClosingRemovesRow(db: Db, req: Request, l: Id, db': Db)
    requires Next(db, req, db') && l in db.loans && db.loans[l].Open()
    requires req == DeleteLoan(l) || (req.ReturnLoan? && req.id == l)
    ensures LoanMembers(db'.loans) == LoanMembers(db.loans) - {l}
    ensures LoanBooks(db'.loans) == LoanBooks(db.loans) - {l}
    ensures forall i :: i in db'.loans ==> i in db.loans
  {
  }

  /** Within limits, taking a book back or deleting its loan makes it free for every member below the limit. */
  lemma ReturnFreesBook(db: Db, req: Request, l: Id, db': Db, m: Id, form: LoanForm)
    requires Schema(db) && LoansWithinLimits(db.loans) && Next(db, req, db')
    requires l in db.loans && db.loans[l].Open() && (req == DeleteLoan(l) || (req.ReturnLoan? && req.id == l))
    requires form.id.None? && form.member == Some(m) && form.book == Some(db.loans[l].book) && form.returned.None?
    ensures OpenLoansOn(db'.loans, db.loans[l].book) == {}
    ensures LoanViolations(db'.loans, form) == [] <==> |Holders(LoanMembers(db'.loans), m)| < MAX_LOANS
    ensures |Holders(LoanMembers(db'.loans), db.loans[l].member)| == |Holders(LoanMembers(db.loans), db.loans[l].member)| - 1
  {
    var b, owner := db.loans[l].book, db.loans[l].member;
    ClosingRemovesRow(db, req, l, db');
    LoanQueries(db.loans, owner, b, 0);
    assert |Holders(LoanBooks(db.loans), b)| <= 1;
    SingleMember(Holders(LoanBooks(db.loans), b), l);
    assert Holders(LoanBooks(db'.loans), b) == Holders(LoanBooks(db.loans), b) - {l};
    LoanQueries(db'.loans, m, b, 0);
    assert Others(LoanMembers(db'.loans), m, 0) == Holders(LoanMembers(db'.loans), m);
    assert Others(LoanBooks(db'.loans), b, 0) == Holders(LoanBooks(db'.loans), b);
    assert Holders(LoanMembers(db'.loans), owner) == Holders(LoanMembers(db.loans), owner) - {l};
  }
}
