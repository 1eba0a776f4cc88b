# A model of the library application and its database headers

The repository holds a library application (a Symfony back end with loans, reservations and a
catalogue) and the header files of the MariaDB client and server it ships with. This project models
the logic where both are subtle and proves what that logic guarantees.

**Circulation desk.** Two validators decide whether a loan or a reservation may be saved: at most 5
open loans per member and 1 per book, at most 3 reservations per member and 1 per book, and no
reservation of a book on loan. The schema has no unique constraint behind these rules, and fixtures
fill the tables without validation. `Columns` proves the counting arguments once, for any foreign-key
column; `Circulation` holds the tables, the validators and their exactness; `SerialDesk` is the
state machine in which requests follow one another; `Interleaving` separates a request's checks
from its flush, so that requests overlap; `Desk` holds the controllers, each shown to take the step it
stands for. What the rules guarantee is stated over whole runs: from any start state no run moves
a member or a book further above its limit; with k requests in flight a member can reach 4 + k open
loans and a book k, and no more; a book both reserved and on loan was lent after its
reservation was last saved, which stops being true as soon as two requests overlap; a returned loan
keeps its first return date until it is edited or deleted; a reservation ends only by its owner's
cancel, a deletion, its conversion or a loan of that book to that member. Beside the runs, one lemma per
request says, from the tables alone, when it takes effect, which row it writes and that nothing else changes.

**Object graph.** `Livre`, `Utilisateur`, `Auteur` and `Categorie` keep two-sided associations by
mutating collections and back-pointers. `Associations` states what one call does to an association and
proves which side implies which over every run; `ObjectGraph` is the heap code, each method tied to it
by contract. Whole runs are replayed on the heap for book loans and authors; for reservations, a
member's loans and categories they follow in the same way from the method contracts and the generic
lemmas.

**Catalogue.** `Like` is the LIKE matcher, `Catalogue` the filtered left join reduced to distinct
books, `Paging` the cutting into pages.

**Database headers.** `Bits` defines the C bit operators on integers of any width; `ByteStrings`
relates byte strings and numbers for every length; `ByteOrder` and `ByteStores` are the portable and the
x86-64 load and store macros; `IoCache` is the in-buffer path of IO_CACHE and what its positions mean in
the file; `Uuid` is the UUID
printer; `Align` the alignment macros.

Clocks, the signed-in user and the ids in a request are parameters. A refused request (violations,
a missing row, a null in a NOT NULL column, an unknown foreign key) leaves the tables unchanged.

Three results are about behaviour a reader of the comments and messages would not expect:

- `addEmprunt` and `addReservation` do not always attach the item: if the collection still has a stale
  entry, the call is a no-op and the item keeps its other owner (`AddSetsOwnerIff`, `AddBackIsIgnored`).
- The search terms "0", `%`, `_` and `\` do not search for themselves: "0" sets no filter because PHP's
  `empty` is true for it, and the others are wildcards or escapes
  (`WantedMeansContainment`, `SearchesIffPlain`).
- `persistEntity` refuses a loan entered as already returned when its book is on loan or its member is at
  the limit, although the validator lets it pass (`CreateLoanDecision`,
  `ReturnedLoanOfLentBookIsRefused`).

To verify the whole project: `dafny verify dfyconfig.toml`.

## Model

| member | source | states |
|---|---|---|
| `Columns.StepKeepsExcess` | poc_articles/src/Validator/EmpruntRulesValidator.php:31-61 | a write whose key had fewer than `limit` other holders, or any removal, never raises any key's excess over the limit |
| `Columns.RowsBound` | poc_articles/src/Validator/EmpruntRulesValidator.php:41-61 | double counting: with at most n rows per key, a column has at most n times as many rows as keys |
| `Circulation.ValidationContext.ValidateLoan` | poc_articles/src/Validator/EmpruntRulesValidator.php:16-62 | appends to the context exactly the violations of the two loan rules, in order; incomplete and returned loans raise none |
| `Circulation.ValidationContext.ValidateReservation` | poc_articles/src/Validator/ReservationRulesValidator.php:17-71 | appends exactly the violations of the three reservation rules, in order; incomplete reservations raise none |
| `Circulation.LoanRulesExact` | poc_articles/src/Validator/EmpruntRulesValidator.php:24-61 | from any tables, each loan violation is raised iff the saved row would leave its own member above 5 or its own book above 1 open loans, for new rows and for edits of any field; the violations are those of the broken rules, once each, the member's first |
| `Circulation.LoanValidatorExact` | poc_articles/src/Validator/EmpruntRulesValidator.php:24-61 | within limits, a loan save raises no violation iff the resulting table is within limits |
| `Circulation.ReservationRulesExact` | poc_articles/src/Validator/ReservationRulesValidator.php:26-70 | from any tables, each of the three reservation violations is raised iff its rule would be broken by the saved row; once each, the member's first and the open loan's last |
| `Circulation.ReservationValidatorExact` | poc_articles/src/Validator/ReservationRulesValidator.php:26-70 | within limits, a reservation save raises none iff the result is within limits and its book has no open loan |
| `Circulation.TotalsBounded` | poc_articles/src/Validator/EmpruntRulesValidator.php:41-61 | within limits, open loans number at most min(5 x members, books) and reservations at most min(3 x members, books) |
| `SerialDesk.ApiAgreesWithValidator` | poc_articles/src/Controller/Api/ReservationsController.php:28-44 | the API's three queries, which leave out no row, accept exactly what the validator accepts for a new reservation |
| `SerialDesk.CreateLoanDecision` | poc_articles/src/Controller/Admin/EmpruntCrudController.php:174-188 | for an open loan the checks of persistEntity add nothing to the validator's; for a returned one they alone decide, as if it were open |
| `SerialDesk.ReturnedLoanOfLentBookIsRefused` | poc_articles/src/Controller/Admin/EmpruntCrudController.php:174-177 | the second half at a concrete input: a returned loan of a book on loan passes the validator and is refused |
| `SerialDesk.CreateLoanConsumesOwnReservation` | poc_articles/src/Controller/Admin/EmpruntCrudController.php:190-199 | from any tables, creating a loan takes exactly one of the borrower's reservations of that book if there is any, and touches no other; within limits none is left |
| `SerialDesk.CreateLoanWritesForm` | poc_articles/src/Controller/Admin/EmpruntCrudController.php:163-203 | a new loan is stored iff an open loan of that book to that member would stay within both limits, whatever its return date; it takes the next id and the form's values, with today for a missing loan date, and no other loan changes |
| `SerialDesk.EditLoanWritesForm` | poc_articles/src/Controller/Admin/EmpruntCrudController.php:34-45 | an edit writes member, book, loan date and return date of the form to its row and changes nothing else, iff the result stays within the limits; otherwise nothing changes |
| `SerialDesk.EditReservationWritesForm` | poc_articles/src/Controller/Admin/ReservationsCrudController.php:29-38 | the same for a reservation, whose book must not be on loan |
| `SerialDesk.NewReservationIsStored` | poc_articles/src/Controller/Api/ReservationsController.php:28-56 | a new reservation, from the administration or from the API, is stored under the next id with its own values iff it stays within the limits and its book is not on loan; otherwise nothing changes |
| `SerialDesk.ConversionLendsReservedBook` | poc_articles/src/Controller/Admin/ReservationsCrudController.php:65-91 | a conversion lends the reserved book to the member who reserved it, open and from now, and removes that reservation alone, iff the loan stays within the limits; otherwise nothing changes |
| `SerialDesk.ReturnNeedsOpenLoan` | poc_articles/src/Controller/Admin/EmpruntCrudController.php:88-102 | on an unknown or already returned loan nothing changes; on an open one exactly its return date is set |
| `SerialDesk.CancelNeedsOwner` | poc_articles/src/Controller/Api/ReservationsController.php:72-82 | a cancel removes exactly the user's own reservation; on an unknown one or on another member's nothing changes |
| `SerialDesk.DeleteTakesOneRow` | poc_articles/src/Controller/Admin/ReservationsCrudController.php:22-50 | the delete action the screens inherit removes exactly the named row of its table |
| `SerialDesk.StepKeepsSchema` | poc_articles/migrations/Version20260228113618.php:23-28 | every step keeps ids positive and below AUTO_INCREMENT and keeps all foreign keys |
| `SerialDesk.StepAddsNoExcess` | poc_articles/src/Validator/ReservationRulesValidator.php:26-70 | from any tables, no single request raises any member's or book's excess, in either table |
| `SerialDesk.RunAddsNoExcess` | poc_articles/src/Validator/EmpruntRulesValidator.php:24-61 | the same between any two moments of any run |
| `SerialDesk.OnceWithinAlwaysWithin` | poc_articles/src/Validator/EmpruntRulesValidator.php:24-61 | once within limits, every later state of the run is within limits and its totals are bounded by members and books |
| `SerialDesk.SavedBookIsNotLent` | poc_articles/src/Validator/ReservationRulesValidator.php:58-70 | right after an accepted save of a reservation its book has no open loan |
| `SerialDesk.ClashMeansLentAfterSave` | poc_articles/src/Validator/ReservationRulesValidator.php:58-70 | in every run, a book both reserved and on loan was lent at a step after the last accepted save of the reservation, or the clash was in the start state and never touched |
| `SerialDesk.ConversionConservesClaims` | poc_articles/src/Controller/Admin/ReservationsCrudController.php:71-91 | converting a reservation into a loan conserves the number of claims of every member on every book and moves exactly one |
| `SerialDesk.UnnamedLoanIsKept` | poc_articles/src/Controller/Admin/EmpruntCrudController.php:81-102 | over every run a loan stays as it is until a request names it |
| `SerialDesk.LoanBecomesHistory` | poc_articles/src/Controller/Admin/EmpruntCrudController.php:81-102 | over every run, a loan created open and next named by its return is returned, however much later: exactly its row leaves the open loans, and it stays in the table as created with that return date until it is edited or deleted |
| `SerialDesk.ReturnedLoanIsKept` | poc_articles/src/Controller/Admin/EmpruntCrudController.php:92-93 | over every run a returned loan keeps its first return date and all its fields until it is edited or deleted, also when it is returned again |
| `SerialDesk.ReservationEnds` | poc_articles/src/Controller/Api/ReservationsController.php:72-82 | over every run a reservation that is gone went by its owner's cancel, a deletion, its conversion, or a loan of that book to that member |
| `SerialDesk.ReservationIsKept` | poc_articles/src/Controller/Api/ReservationsController.php:72-82 | over every run a reservation nobody edits stays as it is until one of these requests |
| `SerialDesk.GoneIdsNeverReturn` | poc_articles/migrations/Version20260228113618.php:23-24 | over every run, the id of a deleted loan or reservation never comes back |
| `SerialDesk.ReturnFreesBook` | poc_articles/src/Validator/EmpruntRulesValidator.php:47-61 | within limits, returning or deleting a book's loan leaves the book lendable to a member iff that member has fewer than 5 open loans, and lowers the borrower's count by one |
| `Interleaving.CheckThenFlushIsSerialStep` | poc_articles/src/Controller/Admin/EmpruntCrudController.php:163-203 | checking a request and flushing it with nothing in between is the step of the serial desk, persistEntity's recount and removal included |
| `Interleaving.SerialStepIsCheckThenFlush` | poc_articles/src/Controller/Admin/EmpruntCrudController.php:163-203 | every accepted creation or conversion of the serial desk is such a pair |
| `Interleaving.MomentIsSerialStep` | poc_articles/src/Controller/Admin/EmpruntCrudController.php:88-102 | returns and deletions between overlapping requests are exactly the accepted ones of the serial desk |
| `Interleaving.EventKeepsLoads` | poc_articles/src/Validator/EmpruntRulesValidator.php:28-61 | no event lifts "held plus pending" of any member or book, in either table, above what it was or limit - 1 + k |
| `Interleaving.RunKeepsLoads` | poc_articles/src/Validator/EmpruntRulesValidator.php:28-61 | the same between any two moments of any interleaving, from any start |
| `Interleaving.InterleavingBounds` | poc_articles/src/Validator/EmpruntRulesValidator.php:28-61 | from any tables, with at most k unflushed requests, a member's open loans stay at or below the larger of 4 + k and what they were, its reservations of 2 + k, and a book's of k each |
| `Interleaving.InterleavingBoundsFromWithin` | poc_articles/src/Validator/EmpruntRulesValidator.php:28-61 | from tables within limits the bounds 4 + k, 2 + k and k hold at every moment |
| `Interleaving.OneAtATimeIsWithinLimits` | poc_articles/src/Validator/EmpruntRulesValidator.php:28-61 | with k = 1 the rules hold at every moment |
| `Interleaving.AllCanLand` | poc_articles/migrations/Version20260228113618.php:23-24 | requests of any kind that each pass their checks against the same tables can all be flushed, since no constraint stops them |
| `Interleaving.MemberBoundReached` | poc_articles/src/Validator/EmpruntRulesValidator.php:31-45 | for every k an interleaving from a within-limits state takes a member to exactly 4 + k open loans |
| `Interleaving.BookBoundReached` | poc_articles/src/Validator/EmpruntRulesValidator.php:47-61 | for every k an interleaving lends one book to k members at once |
| `Interleaving.MemberReservationBoundReached` | poc_articles/src/Validator/ReservationRulesValidator.php:27-41 | for every k an interleaving takes a member to exactly 2 + k reservations |
| `Interleaving.BookReservationBoundReached` | poc_articles/src/Validator/ReservationRulesValidator.php:43-56 | for every k an interleaving reserves one book for k members at once |
| `Interleaving.OneAtATimeReservesFreeBooks` | poc_articles/src/Validator/ReservationRulesValidator.php:58-70 | with k = 1 a reservation never lands on a book on loan at that moment |
| `Interleaving.TwoAtATimeReserveLentBook` | poc_articles/src/Validator/ReservationRulesValidator.php:58-70 | with k = 2 it can: a concrete interleaving |
| `Associations.RemoveFirstMembers` | poc_articles/src/Entity/Livre.php:195-195 | removing from a duplicate-free collection removes exactly that element and keeps it duplicate-free |
| `Associations.RemoveFirstAt` | poc_articles/src/Entity/Livre.php:195-195 | what stands before and after the first occurrence stays, in order |
| `Associations.RunKeepsConsistent` | poc_articles/src/Entity/Livre.php:183-233 | over every run of add and remove, collections stay duplicate-free and an item is in the collection of the owner it points to |
| `Associations.ApplyKeepsExactIff` | poc_articles/src/Entity/Livre.php:183-203 | a call keeps the two sides equivalent iff it does not add an item that points to another owner |
| `Associations.RunKeepsExact` | poc_articles/src/Entity/Livre.php:183-203 | over every run that only adds unclaimed items the two sides stay equivalent |
| `Associations.AddSetsOwnerIff` | poc_articles/src/Entity/Livre.php:183-191 | after add, the item points to the owner iff it was not listed there or pointed there already |
| `Associations.AddBackIsIgnored` | poc_articles/src/Entity/Livre.php:183-191 | adding to one owner, to another, and to the first again leaves the item with the second |
| `Associations.RemoveUnlinks` | poc_articles/src/Entity/Livre.php:193-203 | remove clears the link to this owner and leaves an item that moved, all other items and all other owners untouched |
| `Associations.AddLinks` | poc_articles/src/Entity/Livre.php:183-191 | add lists the item, at the end if new, and touches no other owner and no other item |
| `Associations.AddThenRemove` | poc_articles/src/Entity/Livre.php:183-203 | adding an unlisted item and removing it restores every collection and leaves the item unowned |
| `Associations.AddOwningLinks` | poc_articles/src/Entity/Livre.php:135-142 | from the book's side the author is listed, at the end if new; its other authors, all other books and all authors' lists are unchanged |
| `Associations.RemoveOwningUnlinks` | poc_articles/src/Entity/Livre.php:144-149 | from the book's side the author is no longer listed, also if the author's own list never had the book; everything else is unchanged |
| `Associations.AddThenRemoveOwning` | poc_articles/src/Entity/Livre.php:135-149 | on the book's side, adding an author it did not list and removing it restores both sides |
| `Associations.AddInverseLinks` | poc_articles/src/Entity/Auteur.php:154-162 | from the author's side a new book is listed on both sides, a listed one changes nothing, and no other pair changes |
| `Associations.RemoveInverseUnlinks` | poc_articles/src/Entity/Auteur.php:164-171 | from the author's side a listed book is taken off both sides, an unlisted one changes nothing, and no other pair changes |
| `Associations.AddThenRemoveInverse` | poc_articles/src/Entity/Auteur.php:154-171 | on the author's side, adding a book neither side had and removing it restores both |
| `Associations.PairKeepsIncludedIff` | poc_articles/src/Entity/Livre.php:135-149 | a call keeps every inverse-side pair on the owning side unless it removes, from the book alone, a pair the author still has |
| `Associations.PairKeepsMirroredIff` | poc_articles/src/Entity/Auteur.php:154-171 | a call keeps the two sides exact inverses iff it does not change the book's side alone |
| `Associations.InverseRunsStayMirrored` | poc_articles/src/Entity/Auteur.php:154-171 | over every run of addLivre and removeLivre the two sides stay exact inverses |
| `Associations.MixedRunsStayIncluded` | poc_articles/src/Entity/Categorie.php:82-99 | with additions on the book's side as well, every inverse-side pair stays on the owning side |
| `ObjectGraph.Livre.AddEmprunt` | poc_articles/src/Entity/Livre.php:183-191 | adds to the collection and sets the back-pointer, or does nothing: the association's add on the heap |
| `ObjectGraph.Livre.RemoveEmprunt` | poc_articles/src/Entity/Livre.php:193-203 | the association's remove on the heap |
| `ObjectGraph.Livre.AddReservation` | poc_articles/src/Entity/Livre.php:213-221 | the association's add, for reservations |
| `ObjectGraph.Livre.RemoveReservation` | poc_articles/src/Entity/Livre.php:223-233 | the association's remove, for reservations |
| `ObjectGraph.Livre.AddAuteur` | poc_articles/src/Entity/Livre.php:135-142 | adds on the owning side alone |
| `ObjectGraph.Livre.RemoveAuteur` | poc_articles/src/Entity/Livre.php:144-149 | removes on the owning side alone: from a duplicate-free list the author is gone, whatever the author's own list says |
| `ObjectGraph.Livre.AddCategory` | poc_articles/src/Entity/Livre.php:159-166 | adds on the owning side alone |
| `ObjectGraph.Livre.RemoveCategory` | poc_articles/src/Entity/Livre.php:168-173 | removes on the owning side alone: from a duplicate-free list the category is gone, whatever its own list says |
| `ObjectGraph.Livre.GetIsReserve` | poc_articles/src/Entity/Livre.php:236-239 | true iff the book has some reservation |
| `ObjectGraph.Livre.GetIsEmprunte` | poc_articles/src/Entity/Livre.php:242-250 | the early-exit loop returns true iff some loan of the book has no return date |
| `ObjectGraph.Utilisateur.AddEmprunt` | poc_articles/src/Entity/Utilisateur.php:286-294 | the association's add, for a member's loans |
| `ObjectGraph.Utilisateur.RemoveEmprunt` | poc_articles/src/Entity/Utilisateur.php:296-306 | the association's remove, for a member's loans |
| `ObjectGraph.Utilisateur.AddReservation` | poc_articles/src/Entity/Utilisateur.php:316-324 | the association's add, for a member's reservations |
| `ObjectGraph.Utilisateur.RemoveReservation` | poc_articles/src/Entity/Utilisateur.php:326-336 | the association's remove, for a member's reservations |
| `ObjectGraph.Auteur.AddLivre` | poc_articles/src/Entity/Auteur.php:154-162 | updates both sides from the inverse side |
| `ObjectGraph.Auteur.RemoveLivre` | poc_articles/src/Entity/Auteur.php:164-171 | updates both sides from the inverse side |
| `ObjectGraph.Categorie.AddLivre` | poc_articles/src/Entity/Categorie.php:82-90 | updates both sides from the inverse side |
| `ObjectGraph.Categorie.RemoveLivre` | poc_articles/src/Entity/Categorie.php:92-99 | updates both sides from the inverse side |
| `ObjectGraph.ReplayLoans` | poc_articles/src/Entity/Livre.php:183-203 | any run of addEmprunt and removeEmprunt on heap objects is the run of the association: consistent always, equivalent if only unclaimed loans are added |
| `ObjectGraph.ReplayAuthors` | poc_articles/src/Entity/Auteur.php:154-171 | any run of the four author-book methods on heap objects, with the same two results |
| `Desk.FlagsAnswerQueries` | poc_articles/src/Entity/Livre.php:236-250 | on a book whose collections mirror the tables the two flags equal the validators' queries |
| `Desk.ReservableIffFlagsDown` | poc_articles/src/Entity/Livre.php:236-250 | a new reservation is accepted iff both flags are false and the member holds fewer than 3 reservations |
| `Desk.CountOpen` | poc_articles/src/Controller/Admin/EmpruntCrudController.php:180-185 | the loop counts exactly the open loans the validator's query finds |
| `Desk.CheckQuotas` | poc_articles/src/Controller/Admin/EmpruntCrudController.php:174-188 | the checks on the object graph refuse exactly when the tables say so, the book first |
| `Desk.EntityManager.CreateLoan` | poc_articles/src/Controller/Admin/EmpruntCrudController.php:163-203 | validation and persistEntity together take the create step of the state machine and succeed iff it accepts; the stored row has the object's member, book and dates; violations are reported as raised and leave the object alone, otherwise a missing loan date becomes today |
| `Desk.EntityManager.PersistEntity` | poc_articles/src/Controller/Admin/EmpruntCrudController.php:163-203 | after validation, stores the loan and drops the reservation, or refuses, as the state machine does |
| `Desk.EntityManager.ReturnLoan` | poc_articles/src/Controller/Admin/EmpruntCrudController.php:81-102 | an unknown loan answers NotFound and a returned one AlreadyReturned, and nothing changes; an open one gets its return date and nothing else: the return step of the state machine |
| `Desk.EntityManager.ConvertReservation` | poc_articles/src/Controller/Admin/ReservationsCrudController.php:53-91 | takes the conversion step iff the loan validator raises nothing; an unknown reservation answers NotFound, a refusal reports the violations |
| `Desk.EntityManager.Reserve` | poc_articles/src/Controller/Api/ReservationsController.php:20-56 | takes the API reservation step iff its three checks pass |
| `Desk.EntityManager.CancelReservation` | poc_articles/src/Controller/Api/ReservationsController.php:72-82 | an unknown reservation answers NotFound and another member's Forbidden, and nothing changes; the user's own is removed and nothing else |
| `Like.PlainTermSearches` | poc_articles/src/Repository/LivreRepository.php:31-44 | for a term without %, _ and \, the pattern '%' . term . '%' accepts exactly the strings that contain the term |
| `Like.SearchesIffPlain` | poc_articles/src/Repository/LivreRepository.php:31-44 | that equivalence holds for all strings iff the term has none of these characters |
| `Like.MatchesIffCuts` | poc_articles/src/Repository/LivreRepository.php:31-44 | the matcher accepts exactly the strings that can be cut into consecutive pieces, one per token, any string for %, one character for _, itself for a literal |
| `Like.PatternHead` | poc_articles/src/Repository/LivreRepository.php:31-44 | the meaning of %, _, an escaped character and a plain one at the head of any pattern, and of an escape character that ends it |
| `Like.QuotedTermSearches` | poc_articles/src/Repository/LivreRepository.php:31-44 | with every character escaped, every term would search for itself |
| `Catalogue.SomeRowIffWanted` | poc_articles/src/Repository/LivreRepository.php:25-44 | some row of a book's null-padded join survives the filters iff the title matches, some author matches if asked, and some category matches if asked |
| `Catalogue.ResultIsSelection` | poc_articles/src/Repository/LivreRepository.php:25-53 | the distinct books of the filtered join are exactly the wanted books, each once, in catalogue order |
| `Catalogue.TitleFilterMeansContainment` | poc_articles/src/Repository/LivreRepository.php:31-34 | for every term, the title filter means containment on every book iff the term has no %, _ or \ and is not "0" |
| `Catalogue.AuthorFilterMeansContainment` | poc_articles/src/Repository/LivreRepository.php:36-39 | the same for the author filter, in last or first name |
| `Catalogue.CategoryFilterMeansContainment` | poc_articles/src/Repository/LivreRepository.php:41-44 | the same for the category filter |
| `Catalogue.WantedMeansContainment` | poc_articles/src/Repository/LivreRepository.php:31-44 | for every three terms, the filters together mean containment on every book iff all three terms are of that kind |
| `Catalogue.NoFilterKeepsAll` | poc_articles/src/Repository/LivreRepository.php:25-44 | without filters every book is in the result, also one without author or category |
| `Catalogue.SelectedPositions` | poc_articles/src/Repository/LivreRepository.php:25-44 | the selected books are the catalogue read at exactly the positions of the wanted books, in increasing order |
| `Catalogue.FindBooks` | poc_articles/src/Repository/LivreRepository.php:23-61 | returns the requested page of the wanted books with the page count; pages below 1 fail on the negative offset |
| `Catalogue.FindAuthors` | poc_articles/src/Repository/AuteurRepository.php:23-46 | the same for authors, on a single table |
| `Catalogue.AuthorSearchMeansContainment` | poc_articles/src/Repository/AuteurRepository.php:27-30 | for every term, the author search finds in every list exactly the authors one of whose names contains it, iff the term has no %, _ or \ and is not "0" |
| `Catalogue.SelectedAuthorPositions` | poc_articles/src/Repository/AuteurRepository.php:25-43 | the authors found are the table read at exactly the positions of the matching authors, in increasing order |
| `Catalogue.AuthorCounts` | poc_articles/src/Repository/AuteurRepository.php:25-43 | a matching author is listed as often as it is in the table, any other not at all |
| `Catalogue.NoTermKeepsAllAuthors` | poc_articles/src/Repository/AuteurRepository.php:27-30 | without a term the whole table is listed |
| `Paging.PageCountIsLeast` | poc_articles/src/Repository/LivreRepository.php:53-53 | the page count is the least number of pages that holds all items |
| `Paging.TotalPagesExact` | poc_articles/src/Repository/LivreRepository.php:53-58 | totalPages is 1 for an empty result and otherwise the least positive number of pages that holds all items |
| `Paging.PagesPartition` | poc_articles/src/Repository/LivreRepository.php:46-60 | pages 1 to totalPages, concatenated, are the whole result |
| `Paging.PageSizes` | poc_articles/src/Repository/LivreRepository.php:46-60 | all pages before the last are full, the last is not empty unless there is no result, later ones are empty |
| `Paging.ItemIsOnOnePage` | poc_articles/src/Repository/LivreRepository.php:46-48 | item i is on page i / limit + 1 at place i % limit and nowhere else |
| `ByteOrder.UnsignedLoads` | mariadb-fp/include/mysql/server/byte_order_generic.h:36-64 | each portable unsigned load returns the low-byte-first number of exactly its bytes |
| `ByteOrder.SignedLoads` | mariadb-fp/include/mysql/server/byte_order_generic.h:21-35 | each signed load returns the two's complement number of exactly its bytes, the 24-bit sign extension included |
| `ByteOrder.FastLoadsAgree` | mariadb-fp/include/mysql/server/byte_order_generic_x86_64.h:21-52 | on little-endian memory each x86-64 load equals its portable form on every byte string |
| `ByteOrder.KeyReaders` | mariadb-fp/include/mysql/server/byte_order_generic_x86_64.h:90-123 | mi_uint5korr to mi_uint8korr return the high-byte-first number of exactly their 5 to 8 bytes |
| `ByteOrder.KeysCompareAsBytes` | mariadb-fp/include/mysql/server/byte_order_generic_x86_64.h:88-123 | comparing the results numerically is comparing the byte strings lexicographically |
| `ByteStrings.ValueOfBytes` | mariadb-fp/include/mysql/server/byte_order_generic.h:65-96 | for every length n, the number of the n stored bytes of v is v modulo 256^n |
| `ByteStrings.BytesOfValue` | mariadb-fp/include/mysql/server/byte_order_generic.h:36-96 | for every length, storing the loaded number gives the bytes back |
| `ByteStrings.BigEndianOrder` | mariadb-fp/include/mysql/server/byte_order_generic_x86_64.h:88-123 | for every length, high-byte-first numbers are ordered as their byte strings |
| `ByteStores.Int2Store` | mariadb-fp/include/mysql/server/byte_order_generic.h:65-68 | writes the 2 low bytes of the value at its place and nothing else |
| `ByteStores.Int3Store` | mariadb-fp/include/mysql/server/byte_order_generic.h:69-73 | the same for 3 bytes |
| `ByteStores.Int4Store` | mariadb-fp/include/mysql/server/byte_order_generic.h:74-78 | the same for 4 bytes |
| `ByteStores.Int5Store` | mariadb-fp/include/mysql/server/byte_order_generic.h:79-84 | the same for 5 bytes |
| `ByteStores.Int6Store` | mariadb-fp/include/mysql/server/byte_order_generic.h:85-91 | the same for 6 bytes |
| `ByteStores.Int8Store` | mariadb-fp/include/mysql/server/byte_order_generic.h:92-96 | the same for 8 bytes, as two stores of 4 |
| `ByteStores.FastInt2Store` | mariadb-fp/include/mysql/server/byte_order_generic_x86_64.h:54-56 | the word store writes what the portable macro writes |
| `ByteStores.FastInt3Store` | mariadb-fp/include/mysql/server/byte_order_generic_x86_64.h:58-61 | the same, whatever the sign of the value |
| `ByteStores.FastInt4Store` | mariadb-fp/include/mysql/server/byte_order_generic_x86_64.h:63-65 | the same for 4 bytes |
| `ByteStores.FastInt5Store` | mariadb-fp/include/mysql/server/byte_order_generic_x86_64.h:67-70 | the same for a word and a byte |
| `ByteStores.FastInt6Store` | mariadb-fp/include/mysql/server/byte_order_generic_x86_64.h:72-75 | the same for two words |
| `ByteStores.FastInt8Store` | mariadb-fp/include/mysql/server/byte_order_generic_x86_64.h:77-79 | the same for 8 bytes |
| `ByteStores.StoreThenLoad` | mariadb-fp/include/mysql/server/byte_order_generic.h:36-96 | for each width, storing any integer and loading it unsigned gives it modulo 256^n |
| `ByteStores.LoadThenStore` | mariadb-fp/include/mysql/server/byte_order_generic.h:36-96 | for each width, loading and storing gives the same bytes |
| `ByteStores.StoreThenLoadSigned` | mariadb-fp/include/mysql/server/byte_order_generic.h:21-35 | each signed load recovers every value of its range |
| `IoCache.IO_CACHE.Read` | mariadb-fp/include/mysql/server/my_sys.h:514-523 | copies the next bytes iff they are in the buffer, and changes nothing otherwise |
| `IoCache.IO_CACHE.Get` | mariadb-fp/include/mysql/server/my_sys.h:540-548 | returns the next byte iff there is one |
| `IoCache.IO_CACHE.Write` | mariadb-fp/include/mysql/server/my_sys.h:525-538 | copies the bytes to the write position iff they fit before write_end |
| `IoCache.IO_CACHE.WriteByte` | mariadb-fp/include/mysql/server/my_sys.h:550-558 | the same for one byte |
| `IoCache.IO_CACHE.ReplayReads` | mariadb-fp/include/mysql/server/my_sys.h:514-583 | over any run of reads the bytes delivered are the slice passed over, my_b_tell is pos_in_file plus the distance from the request position, and the run is served iff its total fits |
| `IoCache.IO_CACHE.ReplayWrites` | mariadb-fp/include/mysql/server/my_sys.h:525-588 | over any run of my_b_write and my_b_write_byte the bytes land one after the other and nothing from write_end on changes; my_b_write_tell is pos_in_file plus all bytes in the write buffer, my_b_tell pos_in_file plus those from the request position |
| `IoCache.DeliveredIsSlice` | mariadb-fp/include/mysql/server/my_sys.h:514-548 | what reads deliver depends on their total, not on how it is split |
| `IoCache.IO_CACHE.WriteThenRead` | mariadb-fp/include/mysql/server/my_sys.h:514-558 | on a cache that reads from the buffer it writes to, bytes written by any run of writes are delivered by any run of reads of as many bytes |
| `IoCache.IO_CACHE.constructor` | mariadb-fp/include/mysql/server/my_sys.h:392-422 | a new cache at pos_in_file tells pos_in_file, in both kinds and for any request position |
| `IoCache.IO_CACHE.WriteToFile` | mariadb-fp/include/mysql/server/my_sys.h:525-588 | any run of writes extends the file by the bytes handed over, and my_b_write_tell and my_b_tell are the file offset of the first byte not yet written |
| `IoCache.IO_CACHE.ReadFromFile` | mariadb-fp/include/mysql/server/my_sys.h:514-583 | on a cache that mirrors the file from pos_in_file on, any run of reads delivers the file's bytes between the two values of my_b_tell |
| `Uuid.MaskBit` | mariadb-fp/include/mysql/server/my_sys.h:1036-1041 | the low bit of the shifted mask is set after bytes 3, 5, 7 and 9 and no others, and never without separators |
| `Uuid.Uuid2Str` | mariadb-fp/include/mysql/server/my_sys.h:1033-1044 | writes exactly the 36 (or 32) characters of the RFC 4122 text and nothing else |
| `Uuid.TextLayout` | mariadb-fp/include/mysql/server/my_sys.h:1024-1027 | 36 characters, dashes at 8, 13, 18 and 23, hex digits elsewhere |
| `Uuid.DecodeText` | mariadb-fp/include/mysql/server/my_sys.h:1033-1044 | a decoder that skips dashes recovers the 16 bytes of every UUID in both layouts |
| `Align.AlignIsLeast` | mariadb-fp/include/mysql/server/my_global.h:832-832 | for every word width and power of two, without overflow, MY_ALIGN is the least multiple not below A |
| `Align.AlignDownIsGreatest` | mariadb-fp/include/mysql/server/my_global.h:833-833 | MY_ALIGN_DOWN is the greatest multiple not above A |
| `Align.AlignFixesMultiples` | mariadb-fp/include/mysql/server/my_global.h:832-832 | on every word MY_ALIGN leaves A alone iff it is a multiple |
| `Align.AlignDownFixesMultiples` | mariadb-fp/include/mysql/server/my_global.h:833-833 | on every word MY_ALIGN_DOWN leaves A alone iff it is a multiple |
| `Align.AlignBrackets` | mariadb-fp/include/mysql/server/my_global.h:832-833 | a word that is no multiple lies strictly between the two, which are one step apart |
| `Align.AlignIdempotent` | mariadb-fp/include/mysql/server/my_global.h:832-832 | MY_ALIGN is idempotent on every word, also where it wraps |
| `Align.AlignDownIdempotent` | mariadb-fp/include/mysql/server/my_global.h:833-833 | MY_ALIGN_DOWN is idempotent on every word |
| `Align.AlignMonotoneIff` | mariadb-fp/include/mysql/server/my_global.h:832-832 | MY_ALIGN keeps the order of two words iff the larger does not wrap or the smaller aligns to zero |
| `Align.AlignDownMonotone` | mariadb-fp/include/mysql/server/my_global.h:833-833 | MY_ALIGN_DOWN is monotone on every word |
| `Align.AlignOverflow` | mariadb-fp/include/mysql/server/my_global.h:832-832 | MY_ALIGN rounds up iff A + L - 1 fits the word, and is 0 otherwise |

## Left out

- Doctrine, EasyAdmin, Symfony and the MariaDB engine: only row filters, counts, saves, deletes and AUTO_INCREMENT are modelled; a negative offset is taken to fail, as the database layer does.
- Removing members and books, and the orphan removal of their reservations: library behaviour; the sets of members and books are fixed during a run.
- Interleaving.InterleavingBounds: does not cover overlapping edits of one row, because what they write depends on Doctrine's change sets; creations, conversions, returns and deletions are covered.
- Interleaving.CheckThenFlushIsSerialStep: takes the validator and persistEntity of one request as one moment and the flush as another.
- Desk.EntityManager.CreateLoan: assumes that the collections of the book and the member were loaded from the tables, as Doctrine does on first access.
- Catalogue.FindBooks: does not model that the books it returns carry only the authors and categories that matched; it takes the order of the rows as given (the query has no ORDER BY), a limit of at least 1 (every caller uses the default 9) and item counts below 2^53, where PHP's division and ceil are exact.
- Locale and collation effects in LIKE, such as case folding.
- IoCache.IO_CACHE.Read: the slow paths (refill, flush) are only declared in the header and are not part of this model.
- ByteStores.Int3Store: does not model undefined shifts of values narrower than the shift; values are mathematical integers in two's complement.
- The floating-point load and store macros and the 32-bit x86 variants.
- The digit table of the UUID printer is only declared in the headers; it is taken to be lower-case hexadecimal.
- Plain getters and setters, getIsEnRetard, roles, string conversions and serialisation: each is read off its one-line body.
- Sign-on, tokens, the Angular front end, fixtures, migrations (used only as evidence of the constraints) and prototype-only headers.
