# Movie ticket booking ledger — a Dafny model

This project models the seat ledger behind the single-page movie booking
app in `src/App.jsx`. The page holds three pieces of state:

- the list of shows, each with a seat pool per category (`regular`, `premium`);
- the show currently on display (`selectedShow`, the same record as one element of the list);
- the booking history.

Two handlers change that state:

- `handleBookTickets` takes seats from the displayed show when enough are
  left, and appends a booking.
- `handleCancelBooking` gives a booking's seats back to its show, and drops
  the booking from the history.

The show picker replaces the displayed show. The history list shows a price
for each booking.

The model has three modules:

- `Shows` (`Shows.dfy`) holds the values:
  - shows, seat pools, bookings;
  - the `find` / `findIndex` lookups;
  - the record update that moves seats;
  - the price rule;
  - the four seed shows.
- `History` (`History.dfy`) holds:
  - the history filter used by cancellation;
  - `Booked`, the number of seats the history holds for a show and category;
  - the lemmas that relate the two.
- `App` (`App.dfy`) holds:
  - the class `BookingPage`, whose fields are the page state and whose
    methods are the two handlers and the picker;
  - the page invariant and the lemmas that each handler keeps it;
  - a book-then-cancel round trip;
  - the opening scenario;
  - the finding below.

The page invariant (`App.Consistent`) says:

- every show keeps its listing: only seat counts ever change, and ids stay
  distinct;
- the displayed record is one of the records of the list, so looking its id
  up finds exactly it;
- no seat count is negative;
- every booking holds at least one seat, carries a fresh id and names a
  listed show;
- for every show and category, the seats available plus the seats the
  history holds equal the show's starting capacity.

`handleCancelBooking` receives the booking record itself, taken from the
rendered history list (line 258); there is no cancel by bare id and no
error value. A refused booking only sets a message (line 103); `Book`
returns `false` and changes nothing.

## Model

| member | source | states |
|---|---|---|
| Shows.Seats.Set | src/App.jsx:75-78 | Spreading the seat record with one category overwritten sets that category to the new count and keeps the other category's count. |
| Shows.Show.Adjusted | src/App.jsx:74-80 | The updated show adds `delta` seats to the chosen category and leaves the other category alone. Every other field (id, title, theater, time, genre, duration) is kept. |
| Shows.AdjustedRoundTrip | src/App.jsx:112-118 | Giving back to a show the seats that were taken from it restores the show record exactly. |
| Shows.FindIndex | src/App.jsx:71 | `findIndex` gives -1 exactly when no show has the id. Otherwise it gives a position holding the id, and no earlier position holds it. |
| Shows.FindIndexOfDistinct | src/App.jsx:121 | When ids are distinct, `findIndex` of a show's id is that show's own position. |
| Shows.Find | src/App.jsx:109 | `find` gives nothing exactly when no show has the id. Otherwise it gives a show of the list with that id, namely the one at `findIndex`. |
| Shows.Price | src/App.jsx:255 | A booking's price is its seat count times `ListedPrice` of its category, the per-seat price printed on the category options (15 regular, 25 premium, lines 197-198). A booking of at least one seat costs at least one seat's price. |
| Shows.SeedShows | src/App.jsx:5-42 | The page starts with four shows. Their ids are distinct and no seat count is negative. |
| History.WithoutId | src/App.jsx:134 | The filtered history is never longer than the history. |
| History.WithoutKeepsOthers | src/App.jsx:134 | An entry is in the filtered history exactly when it is in the history with a different id. |
| History.BookedNonNegative | src/App.jsx:90-99 | When every booking holds at least one seat, the history holds a non-negative number of seats for every show and category. |
| History.BookedConcat | src/App.jsx:99 | The seats held by two histories joined together are the sum of the seats each one holds. |
| History.BookTakesSeats | src/App.jsx:99 | Appending a booking adds its seats to its own show and category, and nothing to any other. |
| History.BookedWithout | src/App.jsx:134 | Removing one entry removes exactly the seats it held. |
| History.WithoutAbsentId | src/App.jsx:134 | Filtering out an id no entry carries leaves the history unchanged. |
| History.UniqueTail | src/App.jsx:134 | Dropping the first entry keeps the remaining booking ids unique. |
| History.WithoutHeadId | src/App.jsx:134 | When ids are unique, filtering out the first entry's id leaves exactly the rest of the history. |
| History.WithoutUniqueId | src/App.jsx:134 | When ids are unique, filtering out the id of the entry at position `k` removes that entry and no other. The remaining entries keep their order. |
| History.WithoutRemovesOne | src/App.jsx:133-135 | When ids are unique, cancelling a booking of the history removes exactly one entry, which is that booking. |
| History.UniqueWithout | src/App.jsx:134 | Removing one entry keeps the remaining ids unique. |
| History.CancelReturnsSeats | src/App.jsx:133-135 | Filtering out a booking's id reduces the seats held by exactly that booking's seats, in its own show and category only. |
| History.CancelUndoesAppend | src/App.jsx:99 | Filtering out the id of a booking just appended under a fresh id gives back the history as it was before. |
| App.ListedIdsDistinct | src/App.jsx:5-42 | Show records that kept their listings carry the seed ids at the same positions, so their ids stay distinct. |
| App.SelectedIsFound | src/App.jsx:153 | Under the invariant, looking up the displayed show's id in the list finds exactly the displayed record. |
| App.SeatsWithinCapacity | src/App.jsx:69 | Under the invariant, every seat count lies between zero and the show's starting capacity. |
| App.ReplaceKeepsListing | src/App.jsx:82-88 | Writing an updated record of the same show into the list keeps all listings. Looking up the displayed id then finds the updated record when it is that show, and the old displayed record otherwise. |
| App.TakeKeepsBalance | src/App.jsx:68-105 | Taking `n` seats from a show while appending a booking of `n` seats for it keeps available plus booked seats equal to capacity, for every show and category. |
| App.ReturnKeepsBalance | src/App.jsx:107-138 | Giving a booking's seats back to its show while filtering the booking out of the history keeps available plus booked seats equal to capacity. |
| App.AppendKeepsHistory | src/App.jsx:90-99 | Appending a booking of at least one seat, under a fresh id, for a listed show keeps booking ids unique and the history well formed. |
| App.WithoutKeepsHistory | src/App.jsx:133-135 | Filtering one entry's id out of a well-formed history keeps it well formed. |
| App.ReturnKeepsCounts | src/App.jsx:112-118 | Giving seats back to a show keeps every seat count non-negative. |
| App.BookKeepsConsistent | src/App.jsx:68-105 | A successful booking of at least one seat keeps the whole page invariant. This includes conservation, the displayed record matching the list, and unique booking ids. |
| App.CancelKeepsConsistent | src/App.jsx:107-138 | Cancelling any booking of the history keeps the whole page invariant. The booking's show is always in the list. |
| App.BookingPage.constructor | src/App.jsx:5-49 | The page starts with the seed shows, the first show displayed and an empty history, and the invariant holds. |
| App.BookingPage.Book | src/App.jsx:68-105 | A booking succeeds exactly when the displayed show has at least the requested seats in the category: `Admits`, line 69's guard. On success: that show's count drops by the requested number, in the list and in the displayed record; the other category and every other show are unchanged; one booking is appended with a fresh id. On failure nothing changes. The invariant is kept. |
| App.BookingPage.Cancel | src/App.jsx:107-138 | The booking's seats are given back to its show in the list, and to the displayed record exactly when that show is on display. The history loses exactly that booking and keeps the others in order. The id counter and the invariant are kept. |
| App.BookingPage.Select | src/App.jsx:153 | The picker displays the list's record for the chosen id. The list, the history and the counter are unchanged. |
| App.BookThenCancelRestores | src/App.jsx:68-138 | Booking `n` available seats and then cancelling that booking gives back the list of shows, the displayed record and the history exactly. |
| App.BookThenCancel | src/App.jsx:68-138 | On the page, booking and then cancelling the new booking succeeds exactly when enough seats are left. Either way it leaves the shows, the displayed record and the history as they were. |
| App.SeedScenario | src/App.jsx:5-138 | From the opening state: booking 5 regular seats of the first show succeeds, leaves 95 regular seats and records one booking of 5 regular seats for `s001`; booking 60 premium seats is refused (only 50 exist) and changes neither the shows, the displayed record nor the history; cancelling the first booking brings regular seats back to 100 and leaves the history empty. |
| App.UncheckedCountUnderflows | src/App.jsx:69 | As written, the guard (`Admits`) admits a request for -5 seats. Booking -5 seats, then every seat then left, then cancelling the first booking leaves the category at -5. Available plus booked seats still equals the capacity. |

## Left out

- `selectedShow` is the same object as a list element in the source; the model holds a value, which is equivalent because every update builds a new record (lines 74-80, 112-118) and no handler changes a record in place.
- Rendering: the JSX markup, CSS classes and message strings (`setMessage`) are not modelled. The outcome of a booking is the method's boolean result instead.
- `formatDate` and `Date` arithmetic: a show's time is kept as the arguments of its `Date` constructor and is only carried along.
- `Date.now()` as the booking id is replaced by a counter field (`nextId`), which makes ids unique. Two bookings made in the same millisecond would share an id in the source; that case is not modelled.
- `handleSeatsChange` and `handleCategoryChange`: the `parseInt` of the seat input (including `NaN`) and the category dropdown are not modelled. The seat count and category are parameters of `Book`.
- React's batching of state setters is not modelled. Each handler is one atomic step that reads the state as it was when the handler started, as the source's closures do.
- App.BookingPage.Book: requires at least one seat. The guard at line 69 accepts zero or negative counts (see Findings), and the model states the intended behaviour.
- App.BookingPage.Cancel: requires the booking to be in the history. The only caller is the Cancel button of a rendered history entry. A booking that is not in the history would still have its seats given back; the model does not cover this.
- App.BookingPage.Select: requires the id to belong to a listed show. The picker offers only listed ids, so `find` never returns `undefined` there.
- Cancelling an id that is not in the history, and error values for a refused booking, are not modelled: the code has neither.

## Findings

| source | as written | input that shows it | evidently intended | confidence | as-written member | corrected member |
|---|---|---|---|---|---|---|
| src/App.jsx:69 | The guard `availableSeats[category] >= seatsToBook` admits any count up to availability, including zero and negative counts. The `min="1"` of the input (line 211) does not stop a typed negative number. | Book -5 regular seats (admitted: availability becomes 105), book the 105 then left, cancel the -5 booking: regular availability is -5. | Only bookings of at least one seat are admitted, so no count ever goes below zero. | medium, not executed | App.UncheckedCountUnderflows | App.BookingPage.Book |
