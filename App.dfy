/** The booking page's state and its two handlers (src/App.jsx): the list of
    shows, the show on display, and the booking history. */
module App {
  import opened Shows
  import opened History

  /** Line 69: a request is admitted when the category has at least that
      many seats left. Nothing here rejects a request of zero or fewer seats. */
  function Admits(available: int, requested: int): bool {
    available >= requested
  }

  /** Some show of the list carries `id`. */
  ghost predicate Listed(seed: seq<Show>, id: string) {
    exists i :: 0 <= i < |seed| && seed[i].id == id
  }

  /** The shows keep their listings (only seat counts move) and their ids are distinct. */
  ghost predicate ListingKept(shows: seq<Show>, seed: seq<Show>) {
    && |shows| == |seed|
    && DistinctIds(seed)
    && (forall i :: 0 <= i < |shows| ==> SameListing(shows[i], seed[i]))
  }

  /** No category of any show is below zero. */
  ghost predicate NoNegativeCounts(shows: seq<Show>) {
    forall i, c :: 0 <= i < |shows| ==> shows[i].availableSeats.Get(c) >= 0
  }

  /** Every booking holds at least one seat, has an id already drawn, and
      names a listed show; no two bookings share an id. */
  ghost predicate HistoryWellFormed(history: seq<Booking>, nextId: nat, seed: seq<Show>) {
    && UniqueIds(history)
    && (forall b :: b in history ==> b.seats >= 1 && b.id < nextId && Listed(seed, b.showId))
  }

  /** For every show and category, the seats still available plus the
      seats the history holds equal the show's capacity. */
  ghost predicate Conserved(shows: seq<Show>, history: seq<Booking>, seed: seq<Show>)
    requires |shows| == |seed|
  {
    forall i, c :: 0 <= i < |shows| ==>
      shows[i].availableSeats.Get(c) + Booked(history, shows[i].id, c)
      == seed[i].availableSeats.Get(c)
  }

  /** The page's invariant, over its state as values. */
  ghost predicate Consistent(shows: seq<Show>, selected: Show, history: seq<Booking>,
                             nextId: nat, seed: seq<Show>) {
    && ListingKept(shows, seed)
    && selected in shows
    && NoNegativeCounts(shows)
    && HistoryWellFormed(history, nextId, seed)
    && Conserved(shows, history, seed)
  }

  lemma ListedIdsDistinct(shows: seq<Show>, seed: seq<Show>)
    requires ListingKept(shows, seed)
    ensures DistinctIds(shows)
    ensures forall i :: 0 <= i < |shows| ==> shows[i].id == seed[i].id
  {
    forall i, j | 0 <= i < j < |shows| ensures shows[i].id != shows[j].id {
      assert SameListing(shows[i], seed[i]) && SameListing(shows[j], seed[j]);
    }
  }

  /** Under the invariant the displayed record is exactly the one that
      looking its id up in the list finds. */
  lemma SelectedIsFound(shows: seq<Show>, selected: Show, history: seq<Booking>,
                        nextId: nat, seed: seq<Show>)
    requires Consistent(shows, selected, history, nextId, seed)
    ensures Find(shows, selected.id) == Some(selected)
  {
    ListedIdsDistinct(shows, seed);
    var i :| 0 <= i < |shows| && shows[i] == selected;
    FindIndexOfDistinct(shows, i);
  }

  /** Under the invariant no category is overbooked: every count lies
      between zero and the show's capacity. */
  lemma SeatsWithinCapacity(shows: seq<Show>, selected: Show, history: seq<Booking>,
                            nextId: nat, seed: seq<Show>)
    requires Consistent(shows, selected, history, nextId, seed)
    ensures forall i, c :: 0 <= i < |shows| ==>
      0 <= shows[i].availableSeats.Get(c) <= seed[i].availableSeats.Get(c)
  {
    forall i, c | 0 <= i < |shows|
      ensures shows[i].availableSeats.Get(c) <= seed[i].availableSeats.Get(c)
    {
      BookedNonNegative(history, shows[i].id, c);
    }
  }

  /** Replacing one show by a record of the same listing keeps the
      listings, and the selection still matches its record in the list. */
  lemma ReplaceKeepsListing(shows: seq<Show>, seed: seq<Show>, k: int, s': Show, selected: Show)
    requires ListingKept(shows, seed)
    requires 0 <= k < |shows| && SameListing(s', shows[k])
    requires Find(shows, selected.id) == Some(selected)
    ensures ListingKept(shows[k := s'], seed)
    ensures Find(shows[k := s'], selected.id)
            == Some(if selected.id == s'.id then s' else selected)
  {
    var shows' := shows[k := s'];
    var m := FindIndex(shows, selected.id);
    assert ListingKept(shows', seed);
    ListedIdsDistinct(shows', seed);
    FindIndexOfDistinct(shows', m);
    FindIndexOfDistinct(shows', k);
  }

  /** Taking `n` seats from the show at `k` while appending a booking of
      `n` seats in that category keeps every show's balance. */
  lemma TakeKeepsBalance(shows: seq<Show>, history: seq<Booking>, seed: seq<Show>,
                         k: int, c: Category, n: int, b: Booking)
    requires ListingKept(shows, seed) && Conserved(shows, history, seed)
    requires 0 <= k < |shows|
    requires b.showId == shows[k].id && b.category == c && b.seats == n
    ensures Conserved(shows[k := shows[k].Adjusted(c, -n)], history + [b], seed)
  {
    var shows' := shows[k := shows[k].Adjusted(c, -n)];
    ListedIdsDistinct(shows, seed);
    forall i, c' | 0 <= i < |shows'|
      ensures shows'[i].availableSeats.Get(c') + Booked(history + [b], shows'[i].id, c')
              == seed[i].availableSeats.Get(c')
    {
      BookTakesSeats(history, b, shows'[i].id, c');
    }
  }

  /** Returning the seats of the entry at `j` to its show at `k` while
      filtering its id out of the history keeps every show's balance. The
      returned seats come from `CancelReturnsSeats`, so automatic induction
      is switched off. */
  lemma {:induction false} ReturnKeepsBalance(shows: seq<Show>, history: seq<Booking>, seed: seq<Show>,
                                              k: int, j: int)
    requires ListingKept(shows, seed) && Conserved(shows, history, seed)
    requires UniqueIds(history)
    requires 0 <= j < |history| && 0 <= k < |shows| && shows[k].id == history[j].showId
    ensures
      var b := history[j];
      Conserved(shows[k := shows[k].Adjusted(b.category, b.seats)], WithoutId(history, b.id), seed)
  {
    var b := history[j];
    var shows' := shows[k := shows[k].Adjusted(b.category, b.seats)];
    var history' := WithoutId(history, b.id);
    forall i, c | 0 <= i < |shows'|
      ensures shows'[i].availableSeats.Get(c) + Booked(history', shows'[i].id, c)
              == seed[i].availableSeats.Get(c)
    {
      CancelReturnsSeats(history, j, shows[i].id, c);
    }
  }

  /** Appending a booking of at least one seat, for a listed show, under
      the next id, keeps the history well formed. */
  lemma AppendKeepsHistory(history: seq<Booking>, nextId: nat, seed: seq<Show>, b: Booking)
    requires HistoryWellFormed(history, nextId, seed)
    requires b.id == nextId && b.seats >= 1 && Listed(seed, b.showId)
    ensures HistoryWellFormed(history + [b], nextId + 1, seed)
  {
    var h := history + [b];
    forall i, j | 0 <= i < j < |h| ensures h[i].id != h[j].id {
      if j == |history| {
        assert h[i] in history;
      } else {
        assert h[i] == history[i] && h[j] == history[j];
      }
    }
  }

  /** A successful booking of `n >= 1` seats keeps the invariant. */
  lemma BookKeepsConsistent(shows: seq<Show>, selected: Show, history: seq<Booking>,
                            nextId: nat, seed: seq<Show>, c: Category, n: int)
    requires Consistent(shows, selected, history, nextId, seed)
    requires 1 <= n <= selected.availableSeats.Get(c)
    ensures
      var k := FindIndex(shows, selected.id);
      var s' := selected.Adjusted(c, -n);
      var b := Booking(nextId, n, c, selected.id, selected.title, selected.time);
      && 0 <= k < |shows|
      && Consistent(shows[k := s'], s', history + [b], nextId + 1, seed)
  {
    var k := FindIndex(shows, selected.id);
    var s' := selected.Adjusted(c, -n);
    var b := Booking(nextId, n, c, selected.id, selected.title, selected.time);
    ReplaceKeepsListing(shows, seed, k, s', selected);
    TakeKeepsBalance(shows, history, seed, k, c, n, b);
    ListedIdsDistinct(shows, seed);
    assert seed[k].id == b.showId;
    AppendKeepsHistory(history, nextId, seed, b);
  }

  /** Filtering one entry's id out of the history keeps it well formed. */
  lemma WithoutKeepsHistory(history: seq<Booking>, nextId: nat, seed: seq<Show>, j: int)
    requires HistoryWellFormed(history, nextId, seed)
    requires 0 <= j < |history|
    ensures HistoryWellFormed(WithoutId(history, history[j].id), nextId, seed)
  {
    WithoutUniqueId(history, j);
    UniqueWithout(history, j);
  }

  /** Giving seats back to one show keeps every count at or above zero. */
  lemma ReturnKeepsCounts(shows: seq<Show>, k: int, c: Category, n: int)
    requires NoNegativeCounts(shows)
    requires 0 <= k < |shows| && n >= 1
    ensures NoNegativeCounts(shows[k := shows[k].Adjusted(c, n)])
  {
  }

  /** Cancelling a booking of the history keeps the invariant. */
  lemma CancelKeepsConsistent(shows: seq<Show>, selected: Show, history: seq<Booking>,
                              nextId: nat, seed: seq<Show>, b: Booking)
    requires Consistent(shows, selected, history, nextId, seed)
    requires b in history
    ensures
      var k := FindIndex(shows, b.showId);
      var s' := if k >= 0 then shows[k].Adjusted(b.category, b.seats) else selected;
      && 0 <= k < |shows|
      && Consistent(shows[k := s'], if selected.id == b.showId then s' else selected,
                    WithoutId(history, b.id), nextId, seed)
  {
    var k := FindIndex(shows, b.showId);
    assert k >= 0 by {
      ListedIdsDistinct(shows, seed);
      var i :| 0 <= i < |seed| && seed[i].id == b.showId;
      assert shows[i].id == b.showId;
    }
    var s' := shows[k].Adjusted(b.category, b.seats);
    var j :| 0 <= j < |history| && history[j] == b;
    ReplaceKeepsListing(shows, seed, k, s', selected);
    ReturnKeepsBalance(shows, history, seed, k, j);
    WithoutKeepsHistory(history, nextId, seed, j);
    ReturnKeepsCounts(shows, k, b.category, b.seats);
  }

  class BookingPage {
    var shows: seq<Show>
    /** `selectedShow`: the same record as one element of `shows`. */
    var selected: Show
    var history: seq<Booking>
    /** Source of booking ids, in place of `Date.now()`. */
    var nextId: nat
    /** The shows as first created: their capacities. */
    ghost const seed: seq<Show>

    ghost predicate Valid()
      reads this
    {
      Consistent(shows, selected, history, nextId, seed)
    }

    /** The page as first rendered: the seed shows, the first one selected,
        no bookings. */
    constructor ()
      ensures Valid()
      ensures shows == SeedShows() && seed == SeedShows()
      ensures selected == SeedShows()[0]
      ensures history == []
    {
      var initial := SeedShows();
      shows := initial;
      seed := initial;
      selected := initial[0];
      history := [];
      nextId := 0;
      new;
      FindIndexOfDistinct(initial, 0);
    }

    /** `handleBookTickets`: if the selected show has `seatsToBook` seats
        left in `category`, take them from that show (in `shows` and in the
        selection) and append one booking; otherwise change nothing. */
    method Book(category: Category, seatsToBook: int) returns (ok: bool)
      requires Valid()
      requires seatsToBook >= 1
      modifies this
      ensures Valid()
      ensures ok <==> seatsToBook <= old(selected.availableSeats.Get(category))
      ensures ok ==>
        var k := FindIndex(old(shows), old(selected.id));
        && 0 <= k < |old(shows)|
        && shows == old(shows)[k := old(selected).Adjusted(category, -seatsToBook)]
        && selected == shows[k]
        && history == old(history) + [Booking(old(nextId), seatsToBook, category,
                                              old(selected.id), old(selected.title), old(selected.time))]
        && nextId == old(nextId) + 1
      ensures ok ==>
        && selected.availableSeats.Get(category) == old(selected.availableSeats.Get(category)) - seatsToBook
        && selected.availableSeats.Get(Other(category)) == old(selected.availableSeats.Get(Other(category)))
        && (forall i :: 0 <= i < |shows| && shows[i].id != selected.id ==> shows[i] == old(shows[i]))
      ensures !ok ==>
        && shows == old(shows)
        && selected == old(selected)
        && history == old(history)
        && nextId == old(nextId)
    {
      if Admits(selected.availableSeats.Get(category), seatsToBook) {
        BookKeepsConsistent(shows, selected, history, nextId, seed, category, seatsToBook);
        var showIndex := FindIndex(shows, selected.id);
        var updatedShow := selected.Adjusted(category, -seatsToBook);
        var updatedShows := shows;
        updatedShows := updatedShows[showIndex := updatedShow];
        shows := updatedShows;
        selected := updatedShow;
        var newBooking := Booking(nextId, seatsToBook, category,
                                  selected.id, selected.title, selected.time);
        history := history + [newBooking];
        nextId := nextId + 1;
        ok := true;
      } else {
        ok := false;
      }
    }

    /** `handleCancelBooking`: give the booking's seats back to its show (in
        `shows`, and in the selection when that show is on display) and
        drop every history entry with the booking's id. */
    method Cancel(bookingToCancel: Booking)
      requires Valid()
      requires bookingToCancel in history
      modifies this
      ensures Valid()
      ensures nextId == old(nextId)
      ensures
        var k := FindIndex(old(shows), bookingToCancel.showId);
        && 0 <= k < |old(shows)|
        && shows == old(shows)[k := old(shows)[k].Adjusted(bookingToCancel.category, bookingToCancel.seats)]
        && selected == (if old(selected.id) == bookingToCancel.showId then shows[k] else old(selected))
      ensures history == WithoutId(old(history), bookingToCancel.id)
      ensures exists j :: 0 <= j < |old(history)| && old(history)[j] == bookingToCancel
                          && history == old(history)[..j] + old(history)[j+1..]
    {
      CancelKeepsConsistent(shows, selected, history, nextId, seed, bookingToCancel);
      WithoutRemovesOne(history, bookingToCancel);
      var found := Find(shows, bookingToCancel.showId);
      var showToUpdate := found.value;
      var updatedShow := showToUpdate.Adjusted(bookingToCancel.category, bookingToCancel.seats);
      var showIndex := FindIndex(shows, bookingToCancel.showId);
      var updatedShows := shows;
      updatedShows := updatedShows[showIndex := updatedShow];
      shows := updatedShows;
      if selected.id == bookingToCancel.showId {
        selected := updatedShow;
      }
      history := WithoutId(history, bookingToCancel.id);
    }

    /** The show picker (line 153): display the show whose id was chosen.
        The picker only offers ids of listed shows. */
    method Select(id: string)
      requires Valid()
      requires FindIndex(shows, id) >= 0
      modifies this
      ensures Valid()
      ensures shows == old(shows) && history == old(history)
      ensures nextId == old(nextId)
      ensures selected == shows[FindIndex(shows, id)] && selected.id == id
    {
      ListedIdsDistinct(shows, seed);
      var found := Find(shows, id);
      selected := found.value;
      FindIndexOfDistinct(shows, FindIndex(shows, id));
    }
  }

  /** Booking `n` seats and then cancelling that booking gives back the
      list of shows, the selected record and the history exactly. */
  lemma BookThenCancelRestores(shows: seq<Show>, selected: Show, history: seq<Booking>,
                               nextId: nat, seed: seq<Show>, c: Category, n: int)
    requires Consistent(shows, selected, history, nextId, seed)
    requires 1 <= n <= selected.availableSeats.Get(c)
    ensures
      var k := FindIndex(shows, selected.id);
      var booked := shows[k := selected.Adjusted(c, -n)];
      var b := Booking(nextId, n, c, selected.id, selected.title, selected.time);
      var k' := FindIndex(booked, b.showId);
      && k' == k
      && booked[k' := booked[k'].Adjusted(b.category, b.seats)] == shows
      && booked[k'].Adjusted(b.category, b.seats) == selected
      && WithoutId(history + [b], b.id) == history
  {
    var k := FindIndex(shows, selected.id);
    var booked := shows[k := selected.Adjusted(c, -n)];
    var b := Booking(nextId, n, c, selected.id, selected.title, selected.time);
    ReplaceKeepsListing(shows, seed, k, selected.Adjusted(c, -n), selected);
    ListedIdsDistinct(booked, seed);
    FindIndexOfDistinct(booked, k);
    AdjustedRoundTrip(selected, c, n);
    assert booked[k := selected] == shows;
    CancelUndoesAppend(history, b);
  }

  /** Booking seats and then cancelling that same booking on the page
      gives back the shows, the selection and the history as they were. */
  method BookThenCancel(page: BookingPage, category: Category, seats: int) returns (ok: bool)
    requires page.Valid()
    requires seats >= 1
    modifies page
    ensures page.Valid()
    ensures ok <==> seats <= old(page.selected.availableSeats.Get(category))
    ensures page.shows == old(page.shows)
    ensures page.selected == old(page.selected)
    ensures page.history == old(page.history)
  {
    if seats <= page.selected.availableSeats.Get(category) {
      BookThenCancelRestores(page.shows, page.selected, page.history, page.nextId, page.seed,
                             category, seats);
    }
    ok := page.Book(category, seats);
    if ok {
      var booking := page.history[|page.history| - 1];
      page.Cancel(booking);
    }
  }

  /** The opening state of the page, driven through three requests: 5
      regular seats of the first show are booked (95 left, one booking of 5
      regular seats recorded), 60 premium seats are refused (only 50 exist)
      and that refusal changes nothing, and cancelling the booking brings
      the regular count back to 100 with an empty history. */
  method SeedScenario()
    returns (first: bool, regularAfterFirst: int, recorded: seq<Booking>,
             second: bool, refusalChangedNothing: bool,
             regularLeft: int, bookingsLeft: nat)
    ensures first && regularAfterFirst == 95
    ensures |recorded| == 1 && recorded[0].seats == 5
    ensures recorded[0].category == Regular && recorded[0].showId == "s001"
    ensures !second && refusalChangedNothing
    ensures regularLeft == 100 && bookingsLeft == 0
  {
    var page := new BookingPage();
    first := page.Book(Regular, 5);
    regularAfterFirst := page.selected.availableSeats.Get(Regular);
    recorded := page.history;
    var shows, selected := page.shows, page.selected;
    second := page.Book(Premium, 60);
    refusalChangedNothing := page.shows == shows && page.selected == selected && page.history == recorded;
    var booking := page.history[0];
    page.Cancel(booking);
    regularLeft := page.shows[0].availableSeats.Get(Regular);
    bookingsLeft := |page.history|;
  }

  /** As written, line 69 admits a request for a negative number of seats:
      booking -5 seats, then every seat then left, then cancelling the
      first booking drives the category to -5, although availability plus
      booked seats still equals the capacity. */
  lemma UncheckedCountUnderflows(s: Show, t: Time)
    requires s.availableSeats.Get(Regular) >= 0
    ensures
      var a := s.availableSeats.Get(Regular);
      var first := Booking(0, -5, Regular, s.id, s.title, t);
      var second := Booking(1, a + 5, Regular, s.id, s.title, t);
      var afterFirst := s.Adjusted(Regular, -first.seats);
      var afterSecond := afterFirst.Adjusted(Regular, -second.seats);
      var afterCancel := afterSecond.Adjusted(Regular, first.seats);
      && Admits(s.availableSeats.Get(Regular), first.seats)
      && Admits(afterFirst.availableSeats.Get(Regular), second.seats)
      && WithoutId([first, second], first.id) == [second]
      && afterCancel.availableSeats.Get(Regular) == -5
      && afterCancel.availableSeats.Get(Regular) + Booked([second], s.id, Regular) == a
  {
    var a := s.availableSeats.Get(Regular);
    var first := Booking(0, -5, Regular, s.id, s.title, t);
    var second := Booking(1, a + 5, Regular, s.id, s.title, t);
    assert [first, second][1..] == [second];
    assert [second][1..] == [];
  }
}
