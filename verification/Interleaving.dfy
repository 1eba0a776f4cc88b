/**
 The circulation desk when requests overlap. A request checks the tables at one moment and is
 flushed at a later one; between the two, other requests may check, flush, return or delete. No
 unique constraint stops two requests that both passed their checks.

 With at most `k` requests checked and not yet flushed, no member rises above 4 + k open loans and
 no book above k, unless it was there at the start, and these bounds are reached.
 */
module Interleaving {
  import opened Wrappers
  import opened Numbers
  import opened Columns
  import opened Circulation
  import opened SerialDesk

  /**
   A request that passed its checks and waits for its flush. A new loan remembers the reservation
   of the borrower that persistEntity found, and will remove it.
   */
  datatype Pending =
    | NewLoan(loan: Loan, own: Option<Id>)
    | Conversion(loan: Loan, id: Id)
    | NewReservation(reservation: Reservation)

  datatype Sys = Sys(db: Db, pending: seq<Pending>)

  datatype Event =
    | Validate(request: Pending)
    | Flush(n: nat)
    | Abandon(n: nat)
    | GiveBack(loan: Id, now: int)
    | RemoveLoan(loan: Id)
    | RemoveReservation(reservation: Id)

  function NewLoanForm(row: Loan): LoanForm {
    LoanForm(None, Some(row.member), Some(row.book), Some(row.borrowed), row.returned)
  }

  function NewReservationForm(row: Reservation): ReservationForm {
    ReservationForm(None, Some(row.member), Some(row.book), Some(row.date))
  }

  /** A reservation of that member for that book, None exactly when there is none. */
  ghost predicate FindsOwn(rs: Reservations, own: Option<Id>, member: Id, book: Id) {
    match own
    case Some(i) => i in rs && rs[i].member == member && rs[i].book == book
    case None => !exists i :: i in rs && rs[i].member == member && rs[i].book == book
  }

  /** Validator, foreign keys and, for a new loan, persistEntity, all against the same tables. */
  ghost predicate Passes(db: Db, p: Pending) {
    match p
    case NewLoan(row, own) =>
      && References(db, Some(row.member), Some(row.book))
      && LoanViolations(db.loans, NewLoanForm(row)) == []
      && !PersistRefuses(db.loans, row.member, row.book)
      && FindsOwn(db.reservations, own, row.member, row.book)
    case Conversion(row, id) =>
      && id in db.reservations && row.member == db.reservations[id].member && row.book == db.reservations[id].book
      && row.Open() && LoanViolations(db.loans, NewLoanForm(row)) == []
    case NewReservation(row) =>
      && References(db, Some(row.member), Some(row.book))
      && ReservationViolations(db, NewReservationForm(row)) == []
  }

  /** The reservation a flush deletes; deleting a row that is gone by then does nothing. */
  function Dropped(p: Pending): set<Id> {
    match p
    case NewLoan(_, own) => if own.Some? then {own.value} else {}
    case Conversion(_, id) => {id}
    case NewReservation(_) => {}
  }

  function Land(db: Db, p: Pending): Db {
    if p.NewReservation? then InsertReservation(db, p.reservation)
    else InsertLoan(db, p.loan).(reservations := db.reservations - Dropped(p))
  }

  function Without<T>(s: seq<T>, n: nat): seq<T>
    requires n < |s|
  {
    s[..n] + s[n + 1..]
  }

  /** One event, with room for at most `k` pending requests. */
  ghost predicate Happens(s: Sys, e: Event, s': Sys, k: nat) {
    match e
    case Validate(p) => |s.pending| < k && Passes(s.db, p) && s' == Sys(s.db, s.pending + [p])
    case Flush(n) => n < |s.pending| && s' == Sys(Land(s.db, s.pending[n]), Without(s.pending, n))
    case Abandon(n) => n < |s.pending| && s' == Sys(s.db, Without(s.pending, n))
    case GiveBack(l, now) =>
      && l in s.db.loans && s.db.loans[l].Open()
      && s' == s.(db := s.db.(loans := s.db.loans[l := s.db.loans[l].(returned := Some(now))]))
    case RemoveLoan(l) => l in s.db.loans && s' == s.(db := s.db.(loans := s.db.loans - {l}))
    case RemoveReservation(r) =>
      r in s.db.reservations && s' == s.(db := s.db.(reservations := s.db.reservations - {r}))
  }

  ghost predicate IsInterleaving(states: seq<Sys>, events: seq<Event>, k: nat) {
    && |states| == |events| + 1
    && forall n :: 0 <= n < |events| ==> Happens(states[n], events[n], states[n + 1], k)
  }

  // --------------------------------------------- agreement with the serial desk

  function RequestOf(p: Pending): Request {
    match p
    case NewLoan(row, _) => CreateLoan(NewLoanForm(row), row.borrowed)
    case Conversion(row, id) => ConvertReservation(id, row.borrowed)
    case NewReservation(row) => CreateReservation(NewReservationForm(row))
  }

  /** Checking and flushing with nothing in between is the step of the serial desk. */
  lemma CheckThenFlushIsSerialStep(s: Sys, p: Pending, s1: Sys, s2: Sys, k: nat)
    requires s.pending == [] && Happens(s, Validate(p), s1, k) && Happens(s1, Flush(0), s2, k)
    ensures s2.pending == [] && Accepts(s.db, RequestOf(p)) && Next(s.db, RequestOf(p), s2.db)
  {
    assert s1.pending == [p] && s2.db == Land(s.db, p);
    if p.NewLoan? {
      OwnIsDropped(s.db.reservations, p.own, p.loan.member, p.loan.book);
    }
  }

  lemma OwnIsDropped(rs: Reservations, own: Option<Id>, member: Id, book: Id)
    requires FindsOwn(rs, own, member, book)
    ensures DropsOneMatch(rs, rs - (if own.Some? then {own.value} else {}), member, book)
  {
    if own.Some? {
      var i := own.value;
      assert i in rs && rs[i].member == member && rs[i].book == book && rs - {own.value} == rs - {i};
    } else {
      assert rs - {} == rs;
    }
  }

  /** Every accepted creation or conversion of the serial desk is such a pair. */
  lemma SerialStepIsCheckThenFlush(db: Db, req: Request, db': Db) returns (p: Pending)
    requires Schema(db) && Accepts(db, req) && Next(db, req, db')
    requires req.CreateLoan? || req.ConvertReservation? || req.CreateReservation? || req.Reserve?
    ensures Passes(db, p) && Land(db, p) == db'
  {
    match req
    case CreateLoan(f, now) =>
      var row := db'.loans[db.nextLoan];
      var own := DroppedMatch(db.reservations, db'.reservations, row.member, row.book);
      p := NewLoan(row, own);
      assert LoanViolations(db.loans, NewLoanForm(row)) == LoanViolations(db.loans, f.(id := None));
    case ConvertReservation(id, now) => p := Conversion(db'.loans[db.nextLoan], id);
    case CreateReservation(f) => p := NewReservation(db'.reservations[db.nextReservation]);
    case Reserve(m, b, now) =>
      p := NewReservation(Reservation(m, b, now));
      ApiAgreesWithValidator(db, m, b, Some(now));
  }

  /** The events of a single moment are exactly the accepted returns and deletions of the serial desk. */
  lemma MomentIsSerialStep(s: Sys, s': Sys, i: Id, now: int, k: nat)
    ensures Happens(s, GiveBack(i, now), s', k) <==>
            s'.pending == s.pending && Accepts(s.db, ReturnLoan(i, now)) && Next(s.db, ReturnLoan(i, now), s'.db)
    ensures Happens(s, RemoveLoan(i), s', k) <==>
            s'.pending == s.pending && Accepts(s.db, DeleteLoan(i)) && Next(s.db, DeleteLoan(i), s'.db)
    ensures Happens(s, RemoveReservation(i), s', k) <==>
            s'.pending == s.pending && Accepts(s.db, DeleteReservation(i)) && Next(s.db, DeleteReservation(i), s'.db)
  {
  }

  lemma DroppedMatch(rs: Reservations, rs': Reservations, member: Id, book: Id) returns (own: Option<Id>)
    requires DropsOneMatch(rs, rs', member, book)
    ensures FindsOwn(rs, own, member, book) && rs' == rs - if own.Some? then {own.value} else {}
  {
    if exists i :: i in rs && rs[i].member == member && rs[i].book == book {
      var i :| i in rs && rs[i].member == member && rs[i].book == book && rs' == rs - {i};
      own := Some(i);
    } else {
      own := None;
      assert rs - {} == rs;
    }
  }

  // ------------------------------------------- one column with pending writes

  /** Keys that pending requests will write into a column; None for those that write nothing there. */
  type Keys = seq<Option<Id>>

  function Count(keys: Keys, x: Id): nat {
    if keys == [] then 0 else (if keys[0] == Some(x) then 1 else 0) + Count(keys[1..], x)
  }

  lemma {:induction false} CountBound(keys: Keys, x: Id)
    ensures Count(keys, x) <= |keys|
  {
    if keys == [] {
    } else {
      CountBound(keys[1..], x);
    }
  }

  lemma {:induction false} CountConcat(a: Keys, b: Keys, x: Id)
    ensures Count(a + b, x) == Count(a, x) + Count(b, x)
  {
    if a == [] {
      assert a + b == b;
    } else {
      assert (a + b)[1..] == a[1..] + b;
      CountConcat(a[1..], b, x);
    }
  }

  lemma CountWithout(keys: Keys, n: nat, x: Id)
    requires n < |keys|
    ensures Count(keys, x) == Count(Without(keys, n), x) + if keys[n] == Some(x) then 1 else 0
  {
    assert keys == keys[..n] + ([keys[n]] + keys[n + 1..]);
    CountConcat(keys[..n], [keys[n]] + keys[n + 1..], x);
    CountConcat(keys[..n], keys[n + 1..], x);
  }

  /** Rows that hold `x` now, plus pending requests that will. */
  function Load(col: Column, keys: Keys, x: Id): nat {
    |Holders(col, x)| + Count(keys, x)
  }

  ghost predicate ColumnValidates(col: Column, keys: Keys, col': Column, keys': Keys, limit: nat) {
    && col' == col
    && exists key :: keys' == keys + [key] && (key.Some? ==> |Holders(col, key.value)| < limit)
  }

  ghost predicate ColumnFlushes(col: Column, keys: Keys, col': Column, keys': Keys) {
    exists n: nat, i: Id ::
      && n < |keys| && keys' == Without(keys, n)
      && if keys[n].Some? then i !in col && col' == col[i := keys[n].value] else Shrunk(col, col')
  }

  ghost predicate ColumnAbandons(col: Column, keys: Keys, col': Column, keys': Keys) {
    col' == col && exists n: nat :: n < |keys| && keys' == Without(keys, n)
  }

  /** What one event may do to one column. */
  ghost predicate ColumnEvent(col: Column, keys: Keys, col': Column, keys': Keys, limit: nat) {
    || (Shrunk(col, col') && keys' == keys)
    || ColumnValidates(col, keys, col', keys', limit)
    || ColumnFlushes(col, keys, col', keys')
    || ColumnAbandons(col, keys, col', keys')
  }

  /** A check that passes lifts a load at most to limit - 1 + k. */
  lemma ValidationLoad(col: Column, keys: Keys, keys': Keys, limit: nat, k: nat, x: Id)
    requires 1 <= limit && ColumnValidates(col, keys, col, keys', limit) && |keys'| <= k
    ensures Load(col, keys', x) <= Max(Load(col, keys, x), limit - 1 + k)
  {
    var key :| keys' == keys + [key] && (key.Some? ==> |Holders(col, key.value)| < limit);
    CountConcat(keys, [key], x);
    CountBound(keys', x);
  }

  /** A flush moves one from pending to held. */
  lemma FlushLoad(col: Column, keys: Keys, col': Column, keys': Keys, x: Id)
    requires ColumnFlushes(col, keys, col', keys')
    ensures Load(col', keys', x) <= Load(col, keys, x)
  {
    var n: nat, i: Id :| && n < |keys| && keys' == Without(keys, n)
                         && if keys[n].Some? then i !in col && col' == col[i := keys[n].value] else Shrunk(col, col');
    CountWithout(keys, n, x);
    if keys[n].Some? {
      WriteCount(col, i, keys[n].value);
      assert Others(col, keys[n].value, i) == Holders(col, keys[n].value);
    } else {
      ShrunkCount(col, col', x);
    }
  }

  lemma EventLoad(col: Column, keys: Keys, col': Column, keys': Keys, limit: nat, k: nat, x: Id)
    requires 1 <= limit && |keys'| <= k && ColumnEvent(col, keys, col', keys', limit)
    ensures Load(col', keys', x) <= Max(Load(col, keys, x), limit - 1 + k)
  {
    if Shrunk(col, col') && keys' == keys {
      ShrunkCount(col, col', x);
    } else if ColumnValidates(col, keys, col', keys', limit) {
      ValidationLoad(col, keys, keys', limit, k, x);
    } else if ColumnFlushes(col, keys, col', keys') {
      FlushLoad(col, keys, col', keys', x);
    } else {
      var n: nat :| n < |keys| && keys' == Without(keys, n);
      CountWithout(keys, n, x);
    }
  }

  // ------------------------------------------------------- the four columns

  function LoanOf(p: Pending): Option<Loan> {
    if p.NewReservation? || !p.loan.Open() then None else Some(p.loan)
  }

  function LoanMemberKeys(pending: seq<Pending>): (keys: Keys)
    ensures |keys| == |pending|
  {
    seq(|pending|, n requires 0 <= n < |pending| =>
      if LoanOf(pending[n]).Some? then Some(LoanOf(pending[n]).value.member) else None)
  }

  function LoanBookKeys(pending: seq<Pending>): (keys: Keys)
    ensures |keys| == |pending|
  {
    seq(|pending|, n requires 0 <= n < |pending| =>
      if LoanOf(pending[n]).Some? then Some(LoanOf(pending[n]).value.book) else None)
  }

  function ReservationMemberKeys(pending: seq<Pending>): (keys: Keys)
    ensures |keys| == |pending|
  {
    seq(|pending|, n requires 0 <= n < |pending| =>
      if pending[n].NewReservation? then Some(pending[n].reservation.member) else None)
  }

  function ReservationBookKeys(pending: seq<Pending>): (keys: Keys)
    ensures |keys| == |pending|
  {
    seq(|pending|, n requires 0 <= n < |pending| =>
      if pending[n].NewReservation? then Some(pending[n].reservation.book) else None)
  }

  /** Open or pending loans of member `x`; the next three count the other columns likewise. */
  function MemberLoanLoad(s: Sys, x: Id): nat {
    Load(LoanMembers(s.db.loans), LoanMemberKeys(s.pending), x)
  }

  function BookLoanLoad(s: Sys, x: Id): nat {
    Load(LoanBooks(s.db.loans), LoanBookKeys(s.pending), x)
  }

  function MemberReservationLoad(s: Sys, x: Id): nat {
    Load(ReservationMembers(s.db.reservations), ReservationMemberKeys(s.pending), x)
  }

  function BookReservationLoad(s: Sys, x: Id): nat {
    Load(ReservationBooks(s.db.reservations), ReservationBookKeys(s.pending), x)
  }

  ghost predicate HasKeys(db: Db, p: Pending) {
    if p.NewReservation?
    then p.reservation.member in db.members && p.reservation.book in db.books
    else p.loan.member in db.members && p.loan.book in db.books
  }

  ghost predicate WellFormed(s: Sys, k: nat) {
    && Schema(s.db)
    && |s.pending| <= k
    && forall n :: 0 <= n < |s.pending| ==> HasKeys(s.db, s.pending[n])
  }

  lemma LoanColumnEvents(s: Sys, e: Event, s': Sys, k: nat)
    requires Schema(s.db) && Happens(s, e, s', k)
    ensures ColumnEvent(LoanMembers(s.db.loans), LoanMemberKeys(s.pending),
                        LoanMembers(s'.db.loans), LoanMemberKeys(s'.pending), MAX_LOANS)
    ensures ColumnEvent(LoanBooks(s.db.loans), LoanBookKeys(s.pending),
                        LoanBooks(s'.db.loans), LoanBookKeys(s'.pending), MAX_LOANS_PER_BOOK)
  {
    match e
    case Validate(p) => ValidatedLoanKeys(s, p);
    case Flush(n) => FlushedLoanKeys(s, n);
    case Abandon(n) =>
      assert LoanMemberKeys(s'.pending) == Without(LoanMemberKeys(s.pending), n);
      assert LoanBookKeys(s'.pending) == Without(LoanBookKeys(s.pending), n);
    case _ =>
  }

  lemma ValidatedLoanKeys(s: Sys, p: Pending)
    requires Schema(s.db) && Passes(s.db, p)
    ensures ColumnValidates(LoanMembers(s.db.loans), LoanMemberKeys(s.pending),
                            LoanMembers(s.db.loans), LoanMemberKeys(s.pending + [p]), MAX_LOANS)
    ensures ColumnValidates(LoanBooks(s.db.loans), LoanBookKeys(s.pending),
                            LoanBooks(s.db.loans), LoanBookKeys(s.pending + [p]), MAX_LOANS_PER_BOOK)
  {
    var loan := LoanOf(p);
    var member := if loan.Some? then Some(loan.value.member) else None;
    var book := if loan.Some? then Some(loan.value.book) else None;
    assert LoanMemberKeys(s.pending + [p]) == LoanMemberKeys(s.pending) + [member];
    assert LoanBookKeys(s.pending + [p]) == LoanBookKeys(s.pending) + [book];
    if loan.Some? {
      LoanQueries(s.db.loans, loan.value.member, loan.value.book, 0);
      NobodyHasIdZero(LoanMembers(s.db.loans), loan.value.member);
      NobodyHasIdZero(LoanBooks(s.db.loans), loan.value.book);
    }
  }

  lemma NobodyHasIdZero(col: Column, k: Id)
    requires 0 !in col
    ensures Others(col, k, 0) == Holders(col, k)
  {
  }

  lemma FlushedLoanKeys(s: Sys, n: nat)
    requires Schema(s.db) && n < |s.pending|
    ensures var db' := Land(s.db, s.pending[n]);
            && ColumnFlushes(LoanMembers(s.db.loans), LoanMemberKeys(s.pending),
                             LoanMembers(db'.loans), LoanMemberKeys(Without(s.pending, n)))
            && ColumnFlushes(LoanBooks(s.db.loans), LoanBookKeys(s.pending),
                             LoanBooks(db'.loans), LoanBookKeys(Without(s.pending, n)))
  {
    var p, i, loans := s.pending[n], s.db.nextLoan, s.db.loans;
    assert LoanMemberKeys(Without(s.pending, n)) == Without(LoanMemberKeys(s.pending), n);
    assert LoanBookKeys(Without(s.pending, n)) == Without(LoanBookKeys(s.pending), n);
    if !p.NewReservation? {
      LoanColumnsAfterWrite(loans, i, p.loan);
    }
    assert i !in LoanMembers(loans) && i !in LoanBooks(loans);
  }

  lemma ReservationColumnEvents(s: Sys, e: Event, s': Sys, k: nat)
    requires Schema(s.db) && Happens(s, e, s', k)
    ensures ColumnEvent(ReservationMembers(s.db.reservations), ReservationMemberKeys(s.pending),
                        ReservationMembers(s'.db.reservations), ReservationMemberKeys(s'.pending), MAX_RESERVATIONS)
    ensures ColumnEvent(ReservationBooks(s.db.reservations), ReservationBookKeys(s.pending),
                        ReservationBooks(s'.db.reservations), ReservationBookKeys(s'.pending), MAX_RESERVATIONS_PER_BOOK)
  {
    match e
    case Validate(p) => ValidatedReservationKeys(s, p);
    case Flush(n) => FlushedReservationKeys(s, n);
    case Abandon(n) =>
      assert ReservationMemberKeys(s'.pending) == Without(ReservationMemberKeys(s.pending), n);
      assert ReservationBookKeys(s'.pending) == Without(ReservationBookKeys(s.pending), n);
    case _ =>
  }

  lemma ValidatedReservationKeys(s: Sys, p: Pending)
    requires Schema(s.db) && Passes(s.db, p)
    ensures ColumnValidates(ReservationMembers(s.db.reservations), ReservationMemberKeys(s.pending),
                            ReservationMembers(s.db.reservations), ReservationMemberKeys(s.pending + [p]), MAX_RESERVATIONS)
    ensures ColumnValidates(ReservationBooks(s.db.reservations), ReservationBookKeys(s.pending),
                            ReservationBooks(s.db.reservations), ReservationBookKeys(s.pending + [p]), MAX_RESERVATIONS_PER_BOOK)
  {
    var rs := s.db.reservations;
    var member := if p.NewReservation? then Some(p.reservation.member) else None;
    var book := if p.NewReservation? then Some(p.reservation.book) else None;
    assert ReservationMemberKeys(s.pending + [p]) == ReservationMemberKeys(s.pending) + [member];
    assert ReservationBookKeys(s.pending + [p]) == ReservationBookKeys(s.pending) + [book];
    if p.NewReservation? {
      ReservationQueries(rs, p.reservation.member, p.reservation.book, 0);
      NobodyHasIdZero(ReservationMembers(rs), p.reservation.member);
      NobodyHasIdZero(ReservationBooks(rs), p.reservation.book);
    }
  }

  lemma FlushedReservationKeys(s: Sys, n: nat)
    requires Schema(s.db) && n < |s.pending|
    ensures var db' := Land(s.db, s.pending[n]);
            && ColumnFlushes(ReservationMembers(s.db.reservations), ReservationMemberKeys(s.pending),
                             ReservationMembers(db'.reservations), ReservationMemberKeys(Without(s.pending, n)))
            && ColumnFlushes(ReservationBooks(s.db.reservations), ReservationBookKeys(s.pending),
                             ReservationBooks(db'.reservations), ReservationBookKeys(Without(s.pending, n)))
  {
    var p, i, rs := s.pending[n], s.db.nextReservation, s.db.reservations;
    assert ReservationMemberKeys(Without(s.pending, n)) == Without(ReservationMemberKeys(s.pending), n);
    assert ReservationBookKeys(Without(s.pending, n)) == Without(ReservationBookKeys(s.pending), n);
    if p.NewReservation? {
      ReservationColumnsAfterWrite(rs, i, p.reservation);
    }
    assert i !in ReservationMembers(rs) && i !in ReservationBooks(rs);
  }

  lemma EventKeepsWellFormed(s: Sys, e: Event, s': Sys, k: nat)
    requires WellFormed(s, k) && Happens(s, e, s', k)
    ensures WellFormed(s', k)
  {
    if e.Flush? {
      assert HasKeys(s.db, s.pending[e.n]);
    }
  }

  /** No load rises above what it was, or limit - 1 + k. */
  ghost predicate LoadsBounded(s: Sys, s': Sys, k: nat, x: Id) {
    && MemberLoanLoad(s', x) <= Max(MemberLoanLoad(s, x), MAX_LOANS - 1 + k)
    && BookLoanLoad(s', x) <= Max(BookLoanLoad(s, x), MAX_LOANS_PER_BOOK - 1 + k)
    && MemberReservationLoad(s', x) <= Max(MemberReservationLoad(s, x), MAX_RESERVATIONS - 1 + k)
    && BookReservationLoad(s', x) <= Max(BookReservationLoad(s, x), MAX_RESERVATIONS_PER_BOOK - 1 + k)
  }

  lemma EventKeepsLoads(s: Sys, e: Event, s': Sys, k: nat, x: Id)
    requires WellFormed(s, k) && Happens(s, e, s', k)
    ensures LoadsBounded(s, s', k, x)
  {
    EventKeepsWellFormed(s, e, s', k);
    LoanColumnEvents(s, e, s', k);
    ReservationColumnEvents(s, e, s', k);
    EventLoad(LoanMembers(s.db.loans), LoanMemberKeys(s.pending),
              LoanMembers(s'.db.loans), LoanMemberKeys(s'.pending), MAX_LOANS, k, x);
    EventLoad(LoanBooks(s.db.loans), LoanBookKeys(s.pending),
              LoanBooks(s'.db.loans), LoanBookKeys(s'.pending), MAX_LOANS_PER_BOOK, k, x);
    EventLoad(ReservationMembers(s.db.reservations), ReservationMemberKeys(s.pending),
              ReservationMembers(s'.db.reservations), ReservationMemberKeys(s'.pending), MAX_RESERVATIONS, k, x);
    EventLoad(ReservationBooks(s.db.reservations), ReservationBookKeys(s.pending),
              ReservationBooks(s'.db.reservations), ReservationBookKeys(s'.pending), MAX_RESERVATIONS_PER_BOOK, k, x);
  }

  lemma {:induction false} RunKeepsWellFormed(states: seq<Sys>, events: seq<Event>, k: nat, n: nat)
    requires IsInterleaving(states, events, k) && n < |states| && WellFormed(states[0], k)
    ensures WellFormed(states[n], k)
    decreases n
  {
    if n == 0 {
    } else {
      RunKeepsWellFormed(states, events, k, n - 1);
      EventKeepsWellFormed(states[n - 1], events[n - 1], states[n], k);
    }
  }

  lemma LoadsCompose(s: Sys, s1: Sys, s2: Sys, k: nat, x: Id)
    requires LoadsBounded(s, s1, k, x) && LoadsBounded(s1, s2, k, x)
    ensures LoadsBounded(s, s2, k, x)
  {
  }

  /** Between any two moments of any interleaving, from any start: open plus pending is bounded. */
  lemma {:induction false} RunKeepsLoads(states: seq<Sys>, events: seq<Event>, k: nat, m: nat, n: nat, x: Id)
    requires IsInterleaving(states, events, k) && m <= n < |states| && WellFormed(states[0], k)
    ensures LoadsBounded(states[m], states[n], k, x)
    decreases n
  {
    if n == m {
    } else {
      RunKeepsLoads(states, events, k, m, n - 1, x);
      RunKeepsWellFormed(states, events, k, n - 1);
      EventKeepsLoads(states[n - 1], events[n - 1], states[n], k, x);
      LoadsCompose(states[m], states[n - 1], states[n], k, x);
    }
  }

  /**
   From any tables, with at most `k` requests in flight: no member rises above 4 + k open loans or
   2 + k reservations and no book above k of each, unless it was above them at the start, and then
   not above where it was.
   */
  lemma InterleavingBounds(states: seq<Sys>, events: seq<Event>, k: nat, n: nat, x: Id)
    requires IsInterleaving(states, events, k) && n < |states|
    requires Schema(states[0].db) && states[0].pending == []
    ensures var db0, db := states[0].db, states[n].db;
            && |Holders(LoanMembers(db.loans), x)| <= Max(|Holders(LoanMembers(db0.loans), x)|, 4 + k)
            && |Holders(LoanBooks(db.loans), x)| <= Max(|Holders(LoanBooks(db0.loans), x)|, k)
            && |Holders(ReservationMembers(db.reservations), x)| <= Max(|Holders(ReservationMembers(db0.reservations), x)|, 2 + k)
            && |Holders(ReservationBooks(db.reservations), x)| <= Max(|Holders(ReservationBooks(db0.reservations), x)|, k)
  {
    RunKeepsLoads(states, events, k, 0, n, x);
  }

  /** From tables within limits the bounds 4 + k, 2 + k and k hold for everyone at every moment. */
  lemma InterleavingBoundsFromWithin(states: seq<Sys>, events: seq<Event>, k: nat, n: nat, x: Id)
    requires IsInterleaving(states, events, k) && n < |states| && 1 <= k
    requires Schema(states[0].db) && WithinLimits(states[0].db) && states[0].pending == []
    ensures |Holders(LoanMembers(states[n].db.loans), x)| <= 4 + k
    ensures |Holders(LoanBooks(states[n].db.loans), x)| <= k
    ensures |Holders(ReservationMembers(states[n].db.reservations), x)| <= 2 + k
    ensures |Holders(ReservationBooks(states[n].db.reservations), x)| <= k
  {
    InterleavingBounds(states, events, k, n, x);
    var db0 := states[0].db;
    assert |Holders(LoanMembers(db0.loans), x)| <= MAX_LOANS;
    assert |Holders(LoanBooks(db0.loans), x)| <= MAX_LOANS_PER_BOOK;
    assert |Holders(ReservationMembers(db0.reservations), x)| <= MAX_RESERVATIONS;
    assert |Holders(ReservationBooks(db0.reservations), x)| <= MAX_RESERVATIONS_PER_BOOK;
  }

  /** With one request in flight at a time the lending rules hold at every moment. */
  lemma OneAtATimeIsWithinLimits(states: seq<Sys>, events: seq<Event>, n: nat)
    requires IsInterleaving(states, events, 1) && n < |states|
    requires Schema(states[0].db) && WithinLimits(states[0].db) && states[0].pending == []
    ensures WithinLimits(states[n].db)
  {
    forall x: Id
      ensures |Holders(LoanMembers(states[n].db.loans), x)| <= MAX_LOANS
      ensures |Holders(LoanBooks(states[n].db.loans), x)| <= MAX_LOANS_PER_BOOK
      ensures |Holders(ReservationMembers(states[n].db.reservations), x)| <= MAX_RESERVATIONS
      ensures |Holders(ReservationBooks(states[n].db.reservations), x)| <= MAX_RESERVATIONS_PER_BOOK
    {
      InterleavingBoundsFromWithin(states, events, 1, n, x);
    }
  }

  // ------------------------------------------------------ the bounds are reached

  /** The requests flushed one after the other. */
  function LandAll(db: Db, ps: seq<Pending>): Db
    decreases |ps|
  {
    if ps == [] then db else Land(LandAll(db, ps[..|ps| - 1]), ps[|ps| - 1])
  }

  /** The states of the race: all requests check against `db`, then all flush in order. */
  function RaceState(db: Db, ps: seq<Pending>, n: nat): Sys
    requires n <= 2 * |ps|
  {
    if n <= |ps| then Sys(db, ps[..n]) else Sys(LandAll(db, ps[..n - |ps|]), ps[n - |ps|..])
  }

  function RaceEvent(ps: seq<Pending>, n: nat): Event
    requires n < 2 * |ps|
  {
    if n < |ps| then Validate(ps[n]) else Flush(0)
  }

  lemma RaceStep(db: Db, ps: seq<Pending>, n: nat)
    requires n < 2 * |ps|
    requires forall j :: 0 <= j < |ps| ==> Passes(db, ps[j])
    ensures Happens(RaceState(db, ps, n), RaceEvent(ps, n), RaceState(db, ps, n + 1), |ps|)
  {
    if n < |ps| {
      assert ps[..n + 1] == ps[..n] + [ps[n]];
    } else {
      var d := n - |ps|;
      if d == 0 {
        assert ps[..|ps|] == ps[0..] && LandAll(db, ps[..0]) == db;
      }
      assert ps[..d + 1][..d] == ps[..d];
      assert Without(ps[d..], 0) == ps[d + 1..];
    }
  }

  function RaceStates(db: Db, ps: seq<Pending>): (states: seq<Sys>)
    ensures |states| == 2 * |ps| + 1
  {
    seq(2 * |ps| + 1, n requires 0 <= n <= 2 * |ps| => RaceState(db, ps, n))
  }

  function RaceEvents(ps: seq<Pending>): (events: seq<Event>)
    ensures |events| == 2 * |ps|
  {
    seq(2 * |ps|, n requires 0 <= n < 2 * |ps| => RaceEvent(ps, n))
  }

  lemma RaceIsInterleaving(db: Db, ps: seq<Pending>)
    requires forall j :: 0 <= j < |ps| ==> Passes(db, ps[j])
    ensures IsInterleaving(RaceStates(db, ps), RaceEvents(ps), |ps|)
  {
    var states, events := RaceStates(db, ps), RaceEvents(ps);
    forall n | 0 <= n < |events|
      ensures Happens(states[n], events[n], states[n + 1], |ps|)
    {
      RaceStep(db, ps, n);
    }
  }

  /** Requests that each pass against the same tables can all land, one on top of the other. */
  lemma AllCanLand(db: Db, ps: seq<Pending>) returns (states: seq<Sys>, events: seq<Event>)
    requires forall j :: 0 <= j < |ps| ==> Passes(db, ps[j])
    ensures IsInterleaving(states, events, |ps|)
    ensures states[0] == Sys(db, []) && states[|events|] == Sys(LandAll(db, ps), [])
  {
    states, events := RaceStates(db, ps), RaceEvents(ps);
    RaceIsInterleaving(db, ps);
    RaceEnds(db, ps);
  }

  lemma RaceEnds(db: Db, ps: seq<Pending>)
    ensures RaceState(db, ps, 0) == Sys(db, [])
    ensures RaceState(db, ps, 2 * |ps|) == Sys(LandAll(db, ps), [])
  {
    assert ps[..|ps|] == ps && ps[|ps|..] == [];
  }

  ghost predicate IdsBelowNext(db: Db) {
    && (forall i :: i in db.loans ==> i < db.nextLoan)
    && (forall i :: i in db.reservations ==> i < db.nextReservation)
  }

  lemma {:induction false} LandedIdsBelowNext(db: Db, ps: seq<Pending>)
    requires IdsBelowNext(db)
    ensures IdsBelowNext(LandAll(db, ps))
    decreases |ps|
  {
    if ps == [] {
    } else {
      LandedIdsBelowNext(db, ps[..|ps| - 1]);
    }
  }

  lemma FreshRowCount(col: Column, i: Id, k: Id)
    requires i !in col
    ensures |Holders(col[i := k], k)| == |Holders(col, k)| + 1
  {
    WriteCount(col, i, k);
    assert Others(col, k, i) == Holders(col, k);
  }

  ghost predicate LoansFor(ps: seq<Pending>, rows: seq<Loan>) {
    && |ps| == |rows|
    && forall j :: 0 <= j < |ps| ==> ps[j].NewLoan? && ps[j].loan == rows[j] && rows[j].Open()
  }

  /** Landed loans of one member, or of one book, all add up. */
  lemma {:induction false} LandedLoans(db: Db, ps: seq<Pending>, rows: seq<Loan>, m: Id, b: Id)
    requires IdsBelowNext(db) && LoansFor(ps, rows)
    ensures (forall j :: 0 <= j < |rows| ==> rows[j].member == m) ==>
              |Holders(LoanMembers(LandAll(db, ps).loans), m)| == |Holders(LoanMembers(db.loans), m)| + |rows|
    ensures (forall j :: 0 <= j < |rows| ==> rows[j].book == b) ==>
              |Holders(LoanBooks(LandAll(db, ps).loans), b)| == |Holders(LoanBooks(db.loans), b)| + |rows|
    decreases |ps|
  {
    if ps == [] {
    } else {
      var n := |ps| - 1;
      var mid := LandAll(db, ps[..n]);
      LandedLoans(db, ps[..n], rows[..n], m, b);
      LandedIdsBelowNext(db, ps[..n]);
      assert mid.nextLoan !in mid.loans;
      LoanColumnsAfterWrite(mid.loans, mid.nextLoan, rows[n]);
      FreshRowCount(LoanMembers(mid.loans), mid.nextLoan, rows[n].member);
      FreshRowCount(LoanBooks(mid.loans), mid.nextLoan, rows[n].book);
    }
  }

  ghost predicate ReservationsFor(ps: seq<Pending>, rows: seq<Reservation>) {
    && |ps| == |rows|
    && forall j :: 0 <= j < |ps| ==> ps[j] == NewReservation(rows[j])
  }

  lemma {:induction false} LandedReservations(db: Db, ps: seq<Pending>, rows: seq<Reservation>, m: Id, b: Id)
    requires IdsBelowNext(db) && ReservationsFor(ps, rows)
    ensures (forall j :: 0 <= j < |rows| ==> rows[j].member == m) ==>
              |Holders(ReservationMembers(LandAll(db, ps).reservations), m)|
              == |Holders(ReservationMembers(db.reservations), m)| + |rows|
    ensures (forall j :: 0 <= j < |rows| ==> rows[j].book == b) ==>
              |Holders(ReservationBooks(LandAll(db, ps).reservations), b)|
              == |Holders(ReservationBooks(db.reservations), b)| + |rows|
    decreases |ps|
  {
    if ps == [] {
    } else {
      var n := |ps| - 1;
      var mid := LandAll(db, ps[..n]);
      LandedReservations(db, ps[..n], rows[..n], m, b);
      LandedIdsBelowNext(db, ps[..n]);
      assert mid.nextReservation !in mid.reservations;
      ReservationColumnsAfterWrite(mid.reservations, mid.nextReservation, rows[n]);
      FreshRowCount(ReservationMembers(mid.reservations), mid.nextReservation, rows[n].member);
      FreshRowCount(ReservationBooks(mid.reservations), mid.nextReservation, rows[n].book);
    }
  }

  /** Loans that each pass against the same tables all count in the end. */
  lemma LoanRace(db: Db, rows: seq<Loan>, m: Id, b: Id) returns (states: seq<Sys>, events: seq<Event>)
    requires IdsBelowNext(db)
    requires forall j :: 0 <= j < |rows| ==> rows[j].Open() && Passes(db, NewLoan(rows[j], None))
    ensures IsInterleaving(states, events, |rows|) && states[0] == Sys(db, [])
    ensures var db' := states[|events|].db;
            && ((forall j :: 0 <= j < |rows| ==> rows[j].member == m) ==>
                |Holders(LoanMembers(db'.loans), m)| == |Holders(LoanMembers(db.loans), m)| + |rows|)
            && ((forall j :: 0 <= j < |rows| ==> rows[j].book == b) ==>
                |Holders(LoanBooks(db'.loans), b)| == |Holders(LoanBooks(db.loans), b)| + |rows|)
  {
    var ps := seq(|rows|, j requires 0 <= j < |rows| => NewLoan(rows[j], None));
    states, events := AllCanLand(db, ps);
    LandedLoans(db, ps, rows, m, b);
  }

  lemma ReservationRace(db: Db, rows: seq<Reservation>, m: Id, b: Id) returns (states: seq<Sys>, events: seq<Event>)
    requires IdsBelowNext(db)
    requires forall j :: 0 <= j < |rows| ==> Passes(db, NewReservation(rows[j]))
    ensures IsInterleaving(states, events, |rows|) && states[0] == Sys(db, [])
    ensures var db' := states[|events|].db;
            && ((forall j :: 0 <= j < |rows| ==> rows[j].member == m) ==>
                |Holders(ReservationMembers(db'.reservations), m)| == |Holders(ReservationMembers(db.reservations), m)| + |rows|)
            && ((forall j :: 0 <= j < |rows| ==> rows[j].book == b) ==>
                |Holders(ReservationBooks(db'.reservations), b)| == |Holders(ReservationBooks(db.reservations), b)| + |rows|)
  {
    var ps := seq(|rows|, j requires 0 <= j < |rows| => NewReservation(rows[j]));
    states, events := AllCanLand(db, ps);
    LandedReservations(db, ps, rows, m, b);
  }

  function UpTo(n: nat): (ids: set<Id>)
    ensures forall i :: i in ids <==> 1 <= i <= n
  {
    if n == 0 then {} else UpTo(n - 1) + {n}
  }

  lemma EmptyTable()
    ensures forall x :: Holders(map[], x) == {}
    ensures Within(map[], MAX_LOANS) && Within(map[], MAX_LOANS_PER_BOOK) && Within(map[], MAX_RESERVATIONS)
    ensures LoanMembers(map[]) == map[] && LoanBooks(map[]) == map[]
    ensures ReservationMembers(map[]) == map[] && ReservationBooks(map[]) == map[]
  {
    assert forall x :: Holders(map[], x) == {};
  }

  /** Tables in which member 1 holds books 1 to n, on loan or reserved. */
  function Lent(n: nat): Loans {
    map i | i in UpTo(n) :: Loan(1, i, 0, None)
  }

  function Booked(n: nat): Reservations {
    map i | i in UpTo(n) :: Reservation(1, i, 0)
  }

  lemma {:induction false} UpToSize(n: nat)
    ensures |UpTo(n)| == n
  {
    if n == 0 {
    } else {
      UpToSize(n - 1);
    }
  }

  /** A column in which rows 1 to n all hold key 1, and one in which row i holds key i. */
  function AllOne(n: nat): Column {
    map i | i in UpTo(n) :: 1
  }

  function Diagonal(n: nat): Column {
    map i | i in UpTo(n) :: i
  }

  lemma FirstRows(n: nat, x: Id)
    ensures Holders(AllOne(n), x) == if x == 1 then UpTo(n) else {}
    ensures Holders(Diagonal(n), x) == if x in UpTo(n) then {x} else {}
  {
  }

  lemma FirstRowsWithin(n: nat, limit: nat)
    requires n <= limit
    ensures Within(AllOne(n), limit) && Within(Diagonal(n), 1)
  {
    UpToSize(n);
    forall x: Id
      ensures |Holders(AllOne(n), x)| <= limit && |Holders(Diagonal(n), x)| <= 1
    {
      FirstRows(n, x);
    }
  }

  lemma FirstRowsColumns(n: nat)
    ensures LoanMembers(Lent(n)) == AllOne(n) && LoanBooks(Lent(n)) == Diagonal(n)
    ensures ReservationMembers(Booked(n)) == AllOne(n) && ReservationBooks(Booked(n)) == Diagonal(n)
  {
  }

  /** Member 1 has books 1 to n on loan; `k` more books are free. */
  function Borrower(n: nat, k: nat): Db {
    Db({1}, UpTo(n + k), Lent(n), n + 1, map[], 1)
  }

  lemma BorrowerWithin(n: nat, k: nat)
    requires n <= MAX_LOANS
    ensures Schema(Borrower(n, k)) && WithinLimits(Borrower(n, k))
    ensures |Holders(LoanMembers(Lent(n)), 1)| == n
  {
    EmptyTable();
    FirstRowsColumns(n);
    FirstRowsWithin(n, MAX_LOANS);
    FirstRows(n, 1);
    UpToSize(n);
  }

  lemma BorrowerMayBorrow(n: nat, k: nat, b: Id)
    requires n < MAX_LOANS && n < b <= n + k
    ensures Passes(Borrower(n, k), NewLoan(Loan(1, b, 0, None), None))
  {
    FirstRowsColumns(n);
    FirstRows(n, 1);
    FirstRows(n, b);
    UpToSize(n);
    LoanQueries(Lent(n), 1, b, 0);
    NobodyHasIdZero(AllOne(n), 1);
    NobodyHasIdZero(Diagonal(n), b);
  }

  /** A member below the limit can be taken up by as many loans as are in flight. */
  lemma BorrowerRace(n: nat, k: nat) returns (states: seq<Sys>, events: seq<Event>)
    requires n < MAX_LOANS
    ensures IsInterleaving(states, events, k) && states[0] == Sys(Borrower(n, k), [])
    ensures |Holders(LoanMembers(states[|events|].db.loans), 1)| == n + k
  {
    BorrowerWithin(n, k);
    var rows := seq(k, j requires 0 <= j < k => Loan(1, n + 1 + j, 0, None));
    forall j | 0 <= j < k
      ensures Passes(Borrower(n, k), NewLoan(rows[j], None))
    {
      BorrowerMayBorrow(n, k, n + 1 + j);
    }
    states, events := LoanRace(Borrower(n, k), rows, 1, 0);
  }

  /** The member bound for loans is tight: some interleaving takes a member to exactly 4 + k. */
  lemma MemberBoundReached(k: nat) returns (states: seq<Sys>, events: seq<Event>)
    ensures IsInterleaving(states, events, k)
    ensures Schema(states[0].db) && WithinLimits(states[0].db) && states[0].pending == []
    ensures |Holders(LoanMembers(states[|events|].db.loans), 1)| == 4 + k
  {
    BorrowerWithin(4, k);
    states, events := BorrowerRace(4, k);
  }

  /** Member 1 has books 1 to n reserved; `k` more books are free. */
  function Reserver(n: nat, k: nat): Db {
    Db({1}, UpTo(n + k), map[], 1, Booked(n), n + 1)
  }

  lemma ReserverWithin(n: nat, k: nat)
    requires n <= MAX_RESERVATIONS
    ensures Schema(Reserver(n, k)) && WithinLimits(Reserver(n, k))
    ensures |Holders(ReservationMembers(Booked(n)), 1)| == n
  {
    EmptyTable();
    FirstRowsColumns(n);
    FirstRowsWithin(n, MAX_RESERVATIONS);
    FirstRows(n, 1);
    UpToSize(n);
  }

  lemma ReserverMayReserve(n: nat, k: nat, b: Id)
    requires n < MAX_RESERVATIONS && n < b <= n + k
    ensures Passes(Reserver(n, k), NewReservation(Reservation(1, b, 0)))
  {
    EmptyTable();
    FirstRowsColumns(n);
    FirstRows(n, 1);
    FirstRows(n, b);
    UpToSize(n);
    ReservationQueries(Booked(n), 1, b, 0);
    NobodyHasIdZero(AllOne(n), 1);
    NobodyHasIdZero(Diagonal(n), b);
    LoanQueries(map[], 1, b, 0);
  }

  lemma ReserverRace(n: nat, k: nat) returns (states: seq<Sys>, events: seq<Event>)
    requires n < MAX_RESERVATIONS
    ensures IsInterleaving(states, events, k) && states[0] == Sys(Reserver(n, k), [])
    ensures |Holders(ReservationMembers(states[|events|].db.reservations), 1)| == n + k
  {
    ReserverWithin(n, k);
    var rows := seq(k, j requires 0 <= j < k => Reservation(1, n + 1 + j, 0));
    forall j | 0 <= j < k
      ensures Passes(Reserver(n, k), NewReservation(rows[j]))
    {
      ReserverMayReserve(n, k, n + 1 + j);
    }
    states, events := ReservationRace(Reserver(n, k), rows, 1, 0);
  }

  /** The member bound for reservations is tight: some interleaving takes a member to exactly 2 + k. */
  lemma MemberReservationBoundReached(k: nat) returns (states: seq<Sys>, events: seq<Event>)
    ensures IsInterleaving(states, events, k)
    ensures Schema(states[0].db) && WithinLimits(states[0].db) && states[0].pending == []
    ensures |Holders(ReservationMembers(states[|events|].db.reservations), 1)| == 2 + k
  {
    ReserverWithin(2, k);
    states, events := ReserverRace(2, k);
  }

  /** A book nobody has borrowed or reserved, and `k` members. */
  function OneBook(k: nat): Db {
    Db(UpTo(k), {1}, map[], 1, map[], 1)
  }

  lemma OneBookAccepts(k: nat, m: Id)
    requires 1 <= m <= k
    ensures Passes(OneBook(k), NewLoan(Loan(m, 1, 0, None), None))
    ensures Passes(OneBook(k), NewReservation(Reservation(m, 1, 0)))
  {
    EmptyTable();
    LoanQueries(map[], m, 1, 0);
    ReservationQueries(map[], m, 1, 0);
    NobodyHasIdZero(map[], m);
    NobodyHasIdZero(map[], 1);
  }

  /** The book bound for loans is tight: some interleaving lends one book to k members at once. */
  lemma BookBoundReached(k: nat) returns (states: seq<Sys>, events: seq<Event>)
    ensures IsInterleaving(states, events, k)
    ensures Schema(states[0].db) && WithinLimits(states[0].db) && states[0].pending == []
    ensures |Holders(LoanBooks(states[|events|].db.loans), 1)| == k
  {
    var db := OneBook(k);
    EmptyTable();
    var rows := seq(k, j requires 0 <= j < k => Loan(1 + j, 1, 0, None));
    forall j | 0 <= j < k
      ensures Passes(db, NewLoan(rows[j], None))
    {
      OneBookAccepts(k, 1 + j);
    }
    states, events := LoanRace(db, rows, 0, 1);
  }

  /** The book bound for reservations is tight: some interleaving reserves one book for k members. */
  lemma BookReservationBoundReached(k: nat) returns (states: seq<Sys>, events: seq<Event>)
    ensures IsInterleaving(states, events, k)
    ensures Schema(states[0].db) && WithinLimits(states[0].db) && states[0].pending == []
    ensures |Holders(ReservationBooks(states[|events|].db.reservations), 1)| == k
  {
    var db := OneBook(k);
    EmptyTable();
    var rows := seq(k, j requires 0 <= j < k => Reservation(1 + j, 1, 0));
    forall j | 0 <= j < k
      ensures Passes(db, NewReservation(rows[j]))
    {
      OneBookAccepts(k, 1 + j);
    }
    states, events := ReservationRace(db, rows, 0, 1);
  }

  // ------------------------------------- reserving a book that is being lent

  /** No reservation waiting for its flush is for a book on loan. */
  ghost predicate PendingBooksFree(s: Sys) {
    forall n :: 0 <= n < |s.pending| && s.pending[n].NewReservation? ==>
      OpenLoansOn(s.db.loans, s.pending[n].reservation.book) == {}
  }

  lemma SoleRequestKeepsBooksFree(s: Sys, e: Event, s': Sys)
    requires Happens(s, e, s', 1) && |s.pending| <= 1 && PendingBooksFree(s)
    ensures |s'.pending| <= 1 && PendingBooksFree(s')
  {
    forall n | 0 <= n < |s'.pending| && s'.pending[n].NewReservation?
      ensures OpenLoansOn(s'.db.loans, s'.pending[n].reservation.book) == {}
    {
      var b := s'.pending[n].reservation.book;
      assert OpenLoansOn(s'.db.loans, b) <= OpenLoansOn(s.db.loans, b);
      if e.Validate? {
        assert |OpenLoansOn(s.db.loans, b)| == 0;
      }
    }
  }

  lemma {:induction false} SoleRequestsKeepBooksFree(states: seq<Sys>, events: seq<Event>, n: nat)
    requires IsInterleaving(states, events, 1) && n < |states| && states[0].pending == []
    ensures |states[n].pending| <= 1 && PendingBooksFree(states[n])
    decreases n
  {
    if n == 0 {
    } else {
      SoleRequestsKeepBooksFree(states, events, n - 1);
      SoleRequestKeepsBooksFree(states[n - 1], events[n - 1], states[n]);
    }
  }

  /** One request at a time: a reservation never lands on a book that is on loan at that moment. */
  lemma OneAtATimeReservesFreeBooks(states: seq<Sys>, events: seq<Event>, n: nat)
    requires IsInterleaving(states, events, 1) && n < |events| && states[0].pending == []
    requires events[n].Flush? && Happens(states[n], events[n], states[n + 1], 1)
    requires states[n].pending[events[n].n].NewReservation?
    ensures OpenLoansOn(states[n].db.loans, states[n].pending[events[n].n].reservation.book) == {}
  {
    SoleRequestsKeepBooksFree(states, events, n);
    var i := events[n].n;
    assert 0 <= i < |states[n].pending| && states[n].pending[i].NewReservation?;
  }

  lemma RaceSteps(db: Db, r: Pending, l: Pending)
    requires Passes(db, r) && Passes(db, l)
    ensures Happens(Sys(db, []), Validate(r), Sys(db, [r]), 2)
    ensures Happens(Sys(db, [r]), Validate(l), Sys(db, [r, l]), 2)
    ensures Happens(Sys(db, [r, l]), Flush(1), Sys(Land(db, l), [r]), 2)
    ensures Happens(Sys(Land(db, l), [r]), Flush(0), Sys(Land(Land(db, l), r), []), 2)
  {
    assert [] + [r] == [r] && [r] + [l] == [r, l];
    assert Without([r, l], 1) == [r] && Without([r], 0) == [];
  }

  /** Two at a time: a reservation can land on a book after it was lent, although both passed their checks. */
  lemma TwoAtATimeReserveLentBook() returns (states: seq<Sys>, events: seq<Event>)
    ensures IsInterleaving(states, events, 2) && |events| == 4
    ensures Schema(states[0].db) && WithinLimits(states[0].db) && states[0].pending == []
    ensures events[3] == Flush(0) && states[3].pending == [NewReservation(Reservation(2, 1, 0))]
    ensures OpenOn(states[3].db, 1, 1) && OpenOn(states[4].db, 1, 1) && ReservedOn(states[4].db, 1, 1)
  {
    var db := OneBook(2);
    var r, l := NewReservation(Reservation(2, 1, 0)), NewLoan(Loan(1, 1, 0, None), None);
    EmptyTable();
    OneBookAccepts(2, 1);
    OneBookAccepts(2, 2);
    var lent := Land(db, l);
    var s0, s1, s2, s3 := Sys(db, []), Sys(db, [r]), Sys(db, [r, l]), Sys(lent, [r]);
    var s4 := Sys(Land(lent, r), []);
    RaceSteps(db, r, l);
    states, events := [s0, s1, s2, s3, s4], [Validate(r), Validate(l), Flush(1), Flush(0)];
  }
}
