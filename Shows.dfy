/** Shows, their seat pools, bookings, and the pure lookups and price rule
    of the booking page (src/App.jsx). */
module Shows {

  datatype Option<T> = None | Some(value: T)

  /** The two seat classes: the keys of a show's `availableSeats` record. */
  datatype Category = Regular | Premium

  function Other(c: Category): (o: Category)
    ensures o != c
  {
    if c == Regular then Premium else Regular
  }

  /** The `availableSeats` record: one counter per category. Counts are
      integers, not naturals, so that the model can say when one would go
      below zero. */
  datatype Seats = Seats(regular: int, premium: int)
  {
    function Get(c: Category): int {
      match c
      case Regular => regular
      case Premium => premium
    }

    /** `{ ...seats, [c]: n }`: the record with category `c` set to `n`. */
    function Set(c: Category, n: int): (r: Seats)
      ensures r.Get(c) == n
      ensures r.Get(Other(c)) == Get(Other(c))
    {
      match c
      case Regular => this.(regular := n)
      case Premium => this.(premium := n)
    }
  }

  /** A show's start time, kept as the arguments of its `Date` constructor
      (month counted from 0). It is only carried along, never interpreted. */
  datatype Time = Time(year: int, month: int, day: int, hour: int, minute: int)

  datatype Show = Show(
    id: string,
    title: string,
    theater: string,
    time: Time,
    availableSeats: Seats,
    genre: string,
    duration: int)
  {
    /** The copy of this show with `delta` seats added to category `c`
        (a negative `delta` takes seats away). Every other field, and the
        other category, is kept. */
    function Adjusted(c: Category, delta: int): (r: Show)
      ensures r.availableSeats.Get(c) == availableSeats.Get(c) + delta
      ensures r.availableSeats.Get(Other(c)) == availableSeats.Get(Other(c))
      ensures SameListing(r, this)
    {
      this.(availableSeats := availableSeats.Set(c, availableSeats.Get(c) + delta))
    }
  }

  /** Two records describe the same show: they differ at most in their seat counts. */
  predicate SameListing(a: Show, b: Show) {
    && a.id == b.id
    && a.title == b.title
    && a.theater == b.theater
    && a.time == b.time
    && a.genre == b.genre
    && a.duration == b.duration
  }

  /** Giving back the seats that were taken restores the show exactly. */
  lemma AdjustedRoundTrip(s: Show, c: Category, n: int)
    ensures s.Adjusted(c, -n).Adjusted(c, n) == s
  {
    var t := s.Adjusted(c, -n).Adjusted(c, n);
    assert t.availableSeats.Get(c) == s.availableSeats.Get(c);
    assert t.availableSeats.Get(Other(c)) == s.availableSeats.Get(Other(c));
    assert t.availableSeats == s.availableSeats by {
      match c
      case Regular =>
      case Premium =>
    }
  }

  /** An entry of the booking history. `id` replaces the `Date.now()`
      timestamp with a number drawn from a counter. */
  datatype Booking = Booking(
    id: nat,
    seats: int,
    category: Category,
    showId: string,
    title: string,
    time: Time)

  predicate DistinctIds(shows: seq<Show>) {
    forall i, j :: 0 <= i < j < |shows| ==> shows[i].id != shows[j].id
  }

  /** `shows.findIndex(s => s.id === id)`: the first position holding `id`,
      or -1 when there is none. */
  function FindIndex(shows: seq<Show>, id: string): (k: int)
    ensures -1 <= k < |shows|
    ensures k >= 0 ==> shows[k].id == id
    ensures k >= 0 ==> forall j :: 0 <= j < k ==> shows[j].id != id
    ensures k == -1 <==> forall j :: 0 <= j < |shows| ==> shows[j].id != id
  {
    if |shows| == 0 then -1
    else if shows[0].id == id then 0
    else
      var k := FindIndex(shows[1..], id);
      if k == -1 then -1 else k + 1
  }

  /** With distinct ids, the position of a show's id is that show's own position. */
  lemma FindIndexOfDistinct(shows: seq<Show>, i: int)
    requires DistinctIds(shows)
    requires 0 <= i < |shows|
    ensures FindIndex(shows, shows[i].id) == i
  {
  }

  /** `shows.find(s => s.id === id)`: the first show with that id, or
      `None` where JavaScript gives `undefined`. */
  function Find(shows: seq<Show>, id: string): (r: Option<Show>)
    ensures r.None? <==> forall j :: 0 <= j < |shows| ==> shows[j].id != id
    ensures r.Some? ==> r.value.id == id && r.value in shows
    ensures r.Some? ==> r.value == shows[FindIndex(shows, id)]
  {
    var k := FindIndex(shows, id);
    if k == -1 then None else Some(shows[k])
  }

  /** The per-seat prices printed on the category options. */
  function ListedPrice(c: Category): nat {
    match c
    case Regular => 15
    case Premium => 25
  }

  /** The amount shown beside a booking in the history list. */
  function Price(b: Booking): (r: int)
    ensures r == b.seats * ListedPrice(b.category)
    ensures b.seats >= 1 ==> r >= ListedPrice(b.category)
  {
    if b.category == Regular then b.seats * 15 else b.seats * 25
  }

  /** The four shows the page starts with. */
  function SeedShows(): (r: seq<Show>)
    ensures |r| == 4
    ensures DistinctIds(r)
    ensures forall i, c :: 0 <= i < |r| ==> r[i].availableSeats.Get(c) >= 0
  {
    [ Show("s001", "The Martian", "Galaxy Cinemas", Time(2025, 10, 15, 19, 0),
           Seats(100, 50), "Sci-Fi", 144),
      Show("s002", "Inception", "Main Street Theater", Time(2025, 10, 15, 21, 30),
           Seats(80, 40), "Sci-Fi", 148),
      Show("s003", "Hello Brother", "Cineplex", Time(2025, 10, 16, 17, 0),
           Seats(120, 60), "Comedy", 120),
      Show("s004", "Avatar", "Inox", Time(2025, 10, 16, 17, 0),
           Seats(150, 50), "Sci_fi", 144) ]
  }
}
