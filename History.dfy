/** The booking history: the filter that cancelling applies to it, and how
    many seats it holds for each show and category. */
module History {
  import opened Shows

  /** No two history entries share an id. */
  ghost predicate UniqueIds(h: seq<Booking>) {
    forall i, j :: 0 <= i < j < |h| ==> h[i].id != h[j].id
  }

  /** `history.filter(b => b.id !== id)`: every entry whose id is not `id`,
      in the original order. */
  function WithoutId(h: seq<Booking>, id: nat): (r: seq<Booking>)
    ensures |r| <= |h|
  {
    if |h| == 0 then []
    else if h[0].id == id then WithoutId(h[1..], id)
    else [h[0]] + WithoutId(h[1..], id)
  }

  /** The filter keeps exactly the entries whose id is not `id`. */
  lemma {:induction false} WithoutKeepsOthers(h: seq<Booking>, id: nat)
    ensures forall b :: b in WithoutId(h, id) <==> b in h && b.id != id
  {
    if |h| > 0 {
      WithoutKeepsOthers(h[1..], id);
      assert h == [h[0]] + h[1..];
    }
  }

  /** Seats that one booking holds in category `c` of show `showId`. */
  function Holds(b: Booking, showId: string, c: Category): int {
    if b.showId == showId && b.category == c then b.seats else 0
  }

  /** Seats the history holds in category `c` of show `showId`. */
  function Booked(h: seq<Booking>, showId: string, c: Category): int {
    if |h| == 0 then 0 else Holds(h[0], showId, c) + Booked(h[1..], showId, c)
  }

  /** When every booking holds at least one seat, no show is owed a
      negative number of seats. */
  lemma {:induction false} BookedNonNegative(h: seq<Booking>, showId: string, c: Category)
    requires forall b :: b in h ==> b.seats >= 1
    ensures Booked(h, showId, c) >= 0
  {
    if |h| > 0 {
      assert h[0] in h;
      BookedNonNegative(h[1..], showId, c);
    }
  }

  lemma {:induction false} BookedConcat(a: seq<Booking>, b: seq<Booking>, showId: string, c: Category)
    ensures Booked(a + b, showId, c) == Booked(a, showId, c) + Booked(b, showId, c)
  {
    if |a| == 0 {
      assert a + b == b;
    } else {
      assert (a + b)[1..] == a[1..] + b;
      BookedConcat(a[1..], b, showId, c);
    }
  }

  /** Appending a booking adds exactly its seats to its own show and
      category, and nothing anywhere else. */
  lemma BookTakesSeats(h: seq<Booking>, b: Booking, showId: string, c: Category)
    ensures Booked(h + [b], showId, c) == Booked(h, showId, c) + Holds(b, showId, c)
  {
    BookedConcat(h, [b], showId, c);
    assert [b][1..] == [];
  }

  /** Taking out the entry at `k` removes exactly its seats. */
  lemma BookedWithout(h: seq<Booking>, k: nat, showId: string, c: Category)
    requires k < |h|
    ensures Booked(h[..k] + h[k+1..], showId, c) == Booked(h, showId, c) - Holds(h[k], showId, c)
  {
    assert h == h[..k] + ([h[k]] + h[k+1..]);
    BookedConcat(h[..k], [h[k]] + h[k+1..], showId, c);
    BookedConcat([h[k]], h[k+1..], showId, c);
    BookedConcat(h[..k], h[k+1..], showId, c);
    assert [h[k]][1..] == [];
  }

  /** Filtering out an id nobody carries leaves the history as it is. */
  lemma {:induction false} WithoutAbsentId(h: seq<Booking>, id: nat)
    requires forall b :: b in h ==> b.id != id
    ensures WithoutId(h, id) == h
  {
    if |h| > 0 {
      WithoutAbsentId(h[1..], id);
      assert [h[0]] + h[1..] == h;
    }
  }

  /** Dropping the first entry keeps the remaining ids unique. */
  lemma UniqueTail(h: seq<Booking>)
    requires UniqueIds(h)
    requires |h| > 0
    ensures UniqueIds(h[1..])
  {
    var t := h[1..];
    forall i, j | 0 <= i < j < |t| ensures t[i].id != t[j].id {
      assert t[i] == h[i + 1] && t[j] == h[j + 1];
    }
  }

  /** With unique ids, filtering out the first entry's id drops exactly
      that entry. */
  lemma WithoutHeadId(h: seq<Booking>)
    requires UniqueIds(h)
    requires |h| > 0
    ensures WithoutId(h, h[0].id) == h[1..]
  {
    forall b | b in h[1..] ensures b.id != h[0].id {
      var j :| 0 <= j < |h[1..]| && h[1..][j] == b;
      assert h[j + 1] == b;
    }
    WithoutAbsentId(h[1..], h[0].id);
  }

  /** With unique ids, filtering out the id of entry `k` removes that entry
      and only it, and keeps the others in their order. */
  lemma {:induction false} WithoutUniqueId(h: seq<Booking>, k: nat)
    requires UniqueIds(h)
    requires k < |h|
    ensures WithoutId(h, h[k].id) == h[..k] + h[k+1..]
  {
    if k == 0 {
      WithoutHeadId(h);
    } else {
      var id := h[k].id;
      var t := h[1..];
      assert h[0].id != id;
      assert WithoutId(h, id) == [h[0]] + WithoutId(t, id);
      assert t[k - 1] == h[k];
      UniqueTail(h);
      WithoutUniqueId(t, k - 1);
      assert h[..k] == [h[0]] + t[..k - 1];
      assert h[k+1..] == t[k..];
    }
  }

  /** With unique ids, cancelling a booking of the history removes exactly
      that one entry and keeps the others in order. */
  lemma WithoutRemovesOne(h: seq<Booking>, b: Booking)
    requires UniqueIds(h)
    requires b in h
    ensures exists j :: 0 <= j < |h| && h[j] == b && WithoutId(h, b.id) == h[..j] + h[j+1..]
  {
    var j :| 0 <= j < |h| && h[j] == b;
    WithoutUniqueId(h, j);
  }

  /** Removing one entry keeps the remaining ids unique. */
  lemma UniqueWithout(h: seq<Booking>, k: nat)
    requires UniqueIds(h)
    requires k < |h|
    ensures UniqueIds(h[..k] + h[k+1..])
  {
    var r := h[..k] + h[k+1..];
    forall i, j | 0 <= i < j < |r| ensures r[i].id != r[j].id {
      var i' := if i < k then i else i + 1;
      var j' := if j < k then j else j + 1;
      assert r[i] == h[i'] && r[j] == h[j'];
    }
  }

  /** Cancelling (by id) an entry whose id is unique gives back exactly the
      seats it held, for every show and category. */
  lemma CancelReturnsSeats(h: seq<Booking>, k: nat, showId: string, c: Category)
    requires UniqueIds(h)
    requires k < |h|
    ensures Booked(WithoutId(h, h[k].id), showId, c) == Booked(h, showId, c) - Holds(h[k], showId, c)
  {
    WithoutUniqueId(h, k);
    BookedWithout(h, k, showId, c);
  }

  /** Filtering out the id of a booking just appended with a fresh id
      gives back the history as it was before. */
  lemma {:induction false} CancelUndoesAppend(h: seq<Booking>, b: Booking)
    requires forall x :: x in h ==> x.id != b.id
    ensures WithoutId(h + [b], b.id) == h
  {
    if |h| == 0 {
      assert [b][1..] == [];
      assert WithoutId([b][1..], b.id) == [];
    } else {
      assert (h + [b])[1..] == h[1..] + [b];
      CancelUndoesAppend(h[1..], b);
      assert [h[0]] + h[1..] == h;
    }
  }
}
