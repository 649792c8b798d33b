/** Room inventory and bookings of the property-management adapter's backend. */
module HotelInventories {
  import opened Options

  /** A date is its ordinal number. */
  type Calendar = map<int, int>

  datatype RoomKey = RoomKey(propertyId: string, roomTypeId: string)

  datatype Booking = Booking(key: RoomKey, guest: string, checkIn: int, checkOut: int, rooms: int, confirmed: bool)

  type Bookings = map<string, Booking>
  type Inventory = map<RoomKey, Calendar>

  datatype Error =
    | PropertyRequired | PropertyNotFound | RoomTypeRequired | RoomTypeNotFound | GuestRequired | RoomsNotPositive
    | NotIsoDates | CheckOutNotAfterCheckIn | Insufficient(date: int)
    | BookingRequired | BookingNotFound | AlreadyCancelled | InventoryRequired | NegativeInventory

  function Free(c: Calendar, date: int): int
  {
    if date in c then c[date] else 0
  }

  predicate IsNight(date: int, checkIn: int, checkOut: int)
  {
    checkIn <= date < checkOut
  }

  /** The days from `checkIn` up to, not including, `checkOut`. */
  function Nights(checkIn: int, checkOut: int): (nights: set<int>)
    ensures forall date :: date in nights <==> IsNight(date, checkIn, checkOut)
    decreases checkOut - checkIn
  {
    if checkIn < checkOut then {checkIn} + Nights(checkIn + 1, checkOut) else {}
  }

  /** Every night of the stay changes by `delta` rooms. */
  function Shifted(c: Calendar, checkIn: int, checkOut: int, delta: int): Calendar
  {
    map date | date in c.Keys + Nights(checkIn, checkOut) ::
      if IsNight(date, checkIn, checkOut) then Free(c, date) + delta else c[date]
  }

  predicate Covers(b: Booking, key: RoomKey, date: int)
  {
    b.confirmed && b.key == key && IsNight(date, b.checkIn, b.checkOut)
  }

  function RoomsOn(b: Booking, key: RoomKey, date: int): int
  {
    if Covers(b, key, date) then b.rooms else 0
  }

  /** The rooms that the confirmed bookings with these ids take on one date. */
  ghost function BookedIn(bookings: Bookings, ids: set<string>, key: RoomKey, date: int): int
    requires ids <= bookings.Keys
  {
    if ids == {} then 0 else
      var id :| id in ids;
      RoomsOn(bookings[id], key, date) + BookedIn(bookings, ids - {id}, key, date)
  }

  ghost function Booked(bookings: Bookings, key: RoomKey, date: int): int
  {
    BookedIn(bookings, bookings.Keys, key, date)
  }

  lemma {:induction false} BookedWithout(bookings: Bookings, ids: set<string>, id: string, key: RoomKey, date: int)
    requires ids <= bookings.Keys && id in ids
    ensures BookedIn(bookings, ids, key, date) ==
            RoomsOn(bookings[id], key, date) + BookedIn(bookings, ids - {id}, key, date)
    decreases |ids|
  {
    var first :| first in ids &&
      BookedIn(bookings, ids, key, date) ==
        RoomsOn(bookings[first], key, date) + BookedIn(bookings, ids - {first}, key, date);
    if first != id {
      BookedWithout(bookings, ids - {first}, id, key, date);
      BookedWithout(bookings, ids - {id}, first, key, date);
      assert ids - {first} - {id} == ids - {id} - {first};
    }
  }

  lemma {:induction false} BookedOfSame(a: Bookings, b: Bookings, ids: set<string>, key: RoomKey, date: int)
    requires ids <= a.Keys && ids <= b.Keys && forall id :: id in ids ==> a[id] == b[id]
    ensures BookedIn(a, ids, key, date) == BookedIn(b, ids, key, date)
    decreases |ids|
  {
    if ids != {} {
      var id :| id in ids;
      BookedWithout(a, ids, id, key, date);
      BookedWithout(b, ids, id, key, date);
      BookedOfSame(a, b, ids - {id}, key, date);
    }
  }

  /** Storing a booking under `id` replaces that id's contribution. */
  lemma BookedAfterStore(bookings: Bookings, id: string, b: Booking, key: RoomKey, date: int)
    ensures Booked(bookings[id := b], key, date) ==
            Booked(bookings, key, date) + RoomsOn(b, key, date)
            - (if id in bookings then RoomsOn(bookings[id], key, date) else 0)
  {
    var after := bookings[id := b];
    assert after.Keys == bookings.Keys + {id};
    BookedWithout(after, after.Keys, id, key, date);
    var others := after.Keys - {id};
    BookedOfSame(after, bookings, others, key, date);
    if id in bookings {
      BookedWithout(bookings, bookings.Keys, id, key, date);
      assert bookings.Keys - {id} == others;
    } else {
      assert bookings.Keys == others;
    }
  }

  datatype State = State(inventory: Inventory, bookings: Bookings)

  /** Free rooms plus rooms of confirmed bookings, for one room type and date. */
  ghost function Capacity(s: State, key: RoomKey, date: int): int
  {
    (if key in s.inventory then Free(s.inventory[key], date) else 0) + Booked(s.bookings, key, date)
  }

  ghost predicate Sound(s: State)
  {
    && (forall key, date :: key in s.inventory && date in s.inventory[key] ==> s.inventory[key][date] >= 0)
    && (forall id :: id in s.bookings ==>
          && id != "" && s.bookings[id].key in s.inventory
          && s.bookings[id].rooms >= 1 && s.bookings[id].checkIn < s.bookings[id].checkOut)
  }

  predicate HasRoom(c: Calendar, checkIn: int, checkOut: int, rooms: int)
  {
    forall date :: date in Nights(checkIn, checkOut) ==> Free(c, date) >= rooms
  }

  function AfterCreate(s: State, id: string, b: Booking): State
    requires b.key in s.inventory
  {
    State(s.inventory[b.key := Shifted(s.inventory[b.key], b.checkIn, b.checkOut, -b.rooms)], s.bookings[id := b])
  }

  function AfterCancel(s: State, id: string): State
    requires id in s.bookings && s.bookings[id].key in s.inventory
  {
    var b := s.bookings[id];
    State(s.inventory[b.key := Shifted(s.inventory[b.key], b.checkIn, b.checkOut, b.rooms)],
          s.bookings[id := b.(confirmed := false)])
  }

  /** Each night of the stay loses the rooms; no other date, and no other room type, changes. */
  lemma CreateTakesNights(s: State, id: string, b: Booking)
    requires b.key in s.inventory && b.rooms >= 1
    requires forall date :: b.checkIn <= date < b.checkOut ==>
               date in s.inventory[b.key] && s.inventory[b.key][date] >= b.rooms
    ensures var t := AfterCreate(s, id, b);
            && t.inventory.Keys == s.inventory.Keys
            && (forall k :: k in s.inventory && k != b.key ==> t.inventory[k] == s.inventory[k])
            && (forall date :: date in t.inventory[b.key] <==> date in s.inventory[b.key])
            && (forall date :: date in s.inventory[b.key] ==>
                  t.inventory[b.key][date] ==
                  s.inventory[b.key][date] - (if b.checkIn <= date < b.checkOut then b.rooms else 0))
            && t.bookings == s.bookings[id := b]
  {
  }

  /** Each night of the stay gets its rooms back; the booking is kept, no longer confirmed. */
  lemma CancelReturnsNights(s: State, id: string)
    requires id in s.bookings && s.bookings[id].key in s.inventory
    ensures var t, b := AfterCancel(s, id), s.bookings[id];
            && t.inventory.Keys == s.inventory.Keys
            && (forall k :: k in s.inventory && k != b.key ==> t.inventory[k] == s.inventory[k])
            && (forall date :: b.checkIn <= date < b.checkOut ==>
                  date in t.inventory[b.key] &&
                  t.inventory[b.key][date] ==
                  (if date in s.inventory[b.key] then s.inventory[b.key][date] else 0) + b.rooms)
            && (forall date :: !(b.checkIn <= date < b.checkOut) ==>
                  && (date in t.inventory[b.key] <==> date in s.inventory[b.key])
                  && (date in s.inventory[b.key] ==> t.inventory[b.key][date] == s.inventory[b.key][date]))
            && t.bookings.Keys == s.bookings.Keys && !t.bookings[id].confirmed
            && t.bookings[id].(confirmed := true) == b.(confirmed := true)
            && forall other :: other in s.bookings && other != id ==> t.bookings[other] == s.bookings[other]
  {
  }

  lemma CreateConserves(s: State, id: string, b: Booking)
    requires Sound(s) && id != "" && id !in s.bookings
    requires b.key in s.inventory && b.confirmed && b.rooms >= 1 && b.checkIn < b.checkOut
    requires HasRoom(s.inventory[b.key], b.checkIn, b.checkOut, b.rooms)
    ensures Sound(AfterCreate(s, id, b))
    ensures forall key, date :: Capacity(AfterCreate(s, id, b), key, date) == Capacity(s, key, date)
  {
    forall key, date
      ensures Capacity(AfterCreate(s, id, b), key, date) == Capacity(s, key, date)
    {
      BookedAfterStore(s.bookings, id, b, key, date);
    }
  }

  lemma CancelConserves(s: State, id: string)
    requires Sound(s) && id in s.bookings && s.bookings[id].confirmed
    ensures Sound(AfterCancel(s, id))
    ensures forall key, date :: Capacity(AfterCancel(s, id), key, date) == Capacity(s, key, date)
  {
    forall key, date
      ensures Capacity(AfterCancel(s, id), key, date) == Capacity(s, key, date)
    {
      BookedAfterStore(s.bookings, id, s.bookings[id].(confirmed := false), key, date);
    }
  }

  /** By how much pushing to the calendar of `key` moves the free rooms of `other` on a date. */
  function Moved(c: Calendar, key: RoomKey, pushed: Calendar, other: RoomKey, date: int): int
  {
    if other == key && date in pushed then pushed[date] - Free(c, date) else 0
  }

  /** Pushing sets the free rooms of the pushed dates and moves the capacity by exactly that much. */
  lemma PushMovesCapacity(s: State, key: RoomKey, pushed: Calendar)
    requires Sound(s) && key in s.inventory && forall date :: date in pushed ==> pushed[date] >= 0
    ensures var t := s.(inventory := s.inventory[key := s.inventory[key] + pushed]);
            && Sound(t)
            && forall other, date :: Capacity(t, other, date) ==
                                     Capacity(s, other, date) + Moved(s.inventory[key], key, pushed, other, date)
  {
  }

  /** Cancelling a booking directly after creating it restores the whole inventory. */
  lemma CancelUndoesCreate(s: State, id: string, b: Booking)
    requires Sound(s) && id !in s.bookings && b.key in s.inventory && b.rooms >= 1
    requires HasRoom(s.inventory[b.key], b.checkIn, b.checkOut, b.rooms)
    ensures AfterCancel(AfterCreate(s, id, b), id) == State(s.inventory, s.bookings[id := b.(confirmed := false)])
  {
    var c := s.inventory[b.key];
    assert forall date :: date in Nights(b.checkIn, b.checkOut) ==> date in c;
    assert Shifted(Shifted(c, b.checkIn, b.checkOut, -b.rooms), b.checkIn, b.checkOut, b.rooms) == c;
  }

  /** The requests that pass the argument checks of the adapter. */
  datatype Request =
    | Create(id: string, booking: Booking)
    | Cancel(cancelled: string)
    | Push(key: RoomKey, pushed: Calendar)

  ghost predicate IsRequest(s: State, r: Request)
  {
    match r
    case Create(id, b) =>
      id != "" && id !in s.bookings && b.key in s.inventory && b.confirmed && b.rooms >= 1 && b.checkIn < b.checkOut
    case Cancel(_) => true
    case Push(key, pushed) => key in s.inventory && forall date :: date in pushed ==> pushed[date] >= 0
  }

  ghost function Next(s: State, r: Request): State
    requires Sound(s) && IsRequest(s, r)
  {
    match r
    case Create(id, b) =>
      if HasRoom(s.inventory[b.key], b.checkIn, b.checkOut, b.rooms) then AfterCreate(s, id, b) else s
    case Cancel(id) => if id in s.bookings && s.bookings[id].confirmed then AfterCancel(s, id) else s
    case Push(key, pushed) => s.(inventory := s.inventory[key := s.inventory[key] + pushed])
  }

  ghost predicate IsRun(states: seq<State>, requests: seq<Request>)
  {
    && |states| == |requests| + 1
    && forall i :: 0 <= i < |requests| ==> Serves(states, requests, i)
  }

  ghost predicate Serves(states: seq<State>, requests: seq<Request>, i: nat)
    requires i < |requests| < |states|
  {
    && IsRequest(states[i], requests[i])
    && (Sound(states[i]) ==> states[i + 1] == Next(states[i], requests[i]))
  }

  function MovedBy(s: State, r: Request, key: RoomKey, date: int): int
    requires r.Push? ==> r.key in s.inventory
  {
    if r.Push? then Moved(s.inventory[r.key], r.key, r.pushed, key, date) else 0
  }

  /** What the pushes among the first `n` requests of a run moved, for one room type and date. */
  ghost function TotalMoved(states: seq<State>, requests: seq<Request>, n: nat, key: RoomKey, date: int): int
    requires IsRun(states, requests) && n <= |requests|
  {
    if n == 0 then 0 else
      assert Serves(states, requests, n - 1);
      TotalMoved(states, requests, n - 1, key, date) + MovedBy(states[n - 1], requests[n - 1], key, date)
  }

  lemma RequestMovesCapacity(s: State, r: Request, key: RoomKey, date: int)
    requires Sound(s) && IsRequest(s, r)
    ensures Sound(Next(s, r)) && Capacity(Next(s, r), key, date) == Capacity(s, key, date) + MovedBy(s, r, key, date)
  {
    match r
    case Create(id, b) => if HasRoom(s.inventory[b.key], b.checkIn, b.checkOut, b.rooms) { CreateConserves(s, id, b); }
    case Cancel(id) => if id in s.bookings && s.bookings[id].confirmed { CancelConserves(s, id); }
    case Push(k, pushed) => PushMovesCapacity(s, k, pushed);
  }

  /** In every run, free rooms plus booked rooms are the initial ones plus what the pushes moved, and never negative. */
  lemma {:induction false} OnlyPushesMoveCapacity(
    states: seq<State>, requests: seq<Request>, n: nat, key: RoomKey, date: int)
    requires IsRun(states, requests) && Sound(states[0]) && n <= |requests|
    ensures Sound(states[n])
    ensures key in states[n].inventory && date in states[n].inventory[key] ==> states[n].inventory[key][date] >= 0
    ensures Capacity(states[n], key, date) ==
            Capacity(states[0], key, date) + TotalMoved(states, requests, n, key, date)
  {
    if n > 0 {
      OnlyPushesMoveCapacity(states, requests, n - 1, key, date);
      assert Serves(states, requests, n - 1);
      RequestMovesCapacity(states[n - 1], requests[n - 1], key, date);
    }
  }

  class HotelFriendClient {
    const roomTypes: map<string, set<string>>     // the room types of each known property
    var inventory: Inventory
    var bookings: Bookings

    ghost function Now(): State
      reads this
    {
      State(inventory, bookings)
    }

    ghost predicate Valid()
      reads this
    {
      && Sound(Now())
      && forall property, room :: property in roomTypes && room in roomTypes[property] ==>
           RoomKey(property, room) in inventory
    }

    constructor (roomTypes: map<string, set<string>>, inventory: Inventory)
      requires forall key, date :: key in inventory && date in inventory[key] ==> inventory[key][date] >= 0
      requires forall property, room :: property in roomTypes && room in roomTypes[property] ==>
               RoomKey(property, room) in inventory
      ensures Valid() && this.roomTypes == roomTypes && Now() == State(inventory, map[])
    {
      this.roomTypes := roomTypes;
      this.inventory := inventory;
      bookings := map[];
    }

    predicate KnowsRoom(key: RoomKey)
    {
      && key.propertyId != "" && key.propertyId in roomTypes
      && key.roomTypeId != "" && key.roomTypeId in roomTypes[key.propertyId]
    }

    function KeyError(key: RoomKey): Option<Error>
    {
      if key.propertyId == "" then Some(PropertyRequired)
      else if key.propertyId !in roomTypes then Some(PropertyNotFound)
      else if key.roomTypeId == "" then Some(RoomTypeRequired)
      else if key.roomTypeId !in roomTypes[key.propertyId] then Some(RoomTypeNotFound)
      else None
    }

    /** A date is `None` when its text is not an ISO date. */
    function BookingError(
      key: RoomKey, guest: string, checkIn: Option<int>, checkOut: Option<int>, rooms: int): Option<Error>
    {
      if KeyError(key).Some? then KeyError(key)
      else if guest == "" then Some(GuestRequired)
      else if rooms < 1 then Some(RoomsNotPositive)
      else if checkIn.None? || checkOut.None? then Some(NotIsoDates)
      else if checkOut.value <= checkIn.value then Some(CheckOutNotAfterCheckIn)
      else None
    }

    /** Each refusal has its own cause, and the first one that applies is reported. */
    lemma BookingErrorMeans(
      key: RoomKey, guest: string, checkIn: Option<int>, checkOut: Option<int>, rooms: int)
      ensures var error := BookingError(key, guest, checkIn, checkOut, rooms);
              && (error == Some(PropertyRequired) <==> key.propertyId == "")
              && (error == Some(PropertyNotFound) <==> key.propertyId != "" && key.propertyId !in roomTypes)
              && (error == Some(RoomTypeRequired) <==>
                  key.propertyId != "" && key.propertyId in roomTypes && key.roomTypeId == "")
              && (error == Some(RoomTypeNotFound) <==>
                  key.propertyId != "" && key.propertyId in roomTypes && key.roomTypeId != ""
                  && key.roomTypeId !in roomTypes[key.propertyId])
              && (error == Some(GuestRequired) <==> KnowsRoom(key) && guest == "")
              && (error == Some(RoomsNotPositive) <==> KnowsRoom(key) && guest != "" && rooms < 1)
              && (error == Some(NotIsoDates) <==>
                  KnowsRoom(key) && guest != "" && rooms >= 1 && (checkIn == None || checkOut == None))
              && (error == Some(CheckOutNotAfterCheckIn) <==>
                  KnowsRoom(key) && guest != "" && rooms >= 1 && checkIn.Some? && checkOut.Some?
                  && checkOut.value <= checkIn.value)
              && (error == None <==>
                  KnowsRoom(key) && guest != "" && rooms >= 1 && checkIn.Some? && checkOut.Some?
                  && checkIn.value < checkOut.value)
    {
    }

    /** Looks for the first night of the stay without enough free rooms. */
    static method FindLackingNight(c: Calendar, from: int, to: int, rooms: int) returns (lacking: Option<int>)
      requires from <= to && rooms >= 1
      ensures lacking.None? ==> HasRoom(c, from, to, rooms)
      ensures lacking.None? <==> forall date :: from <= date < to ==> date in c && c[date] >= rooms
      ensures lacking.Some? ==>
                && from <= lacking.value < to && Free(c, lacking.value) < rooms
                && HasRoom(c, from, lacking.value, rooms) && !HasRoom(c, from, to, rooms)
    {
      var date := from;
      while date < to
        invariant from <= date <= to
        invariant forall d :: IsNight(d, from, date) ==> Free(c, d) >= rooms
      {
        if Free(c, date) < rooms {
          assert date in Nights(from, to);
          return Some(date);
        }
        date := date + 1;
      }
      forall d | from <= d < to
        ensures d in c && c[d] >= rooms
      {
        assert IsNight(d, from, to);
      }
      lacking := None;
    }

    /** `id` is the fresh random booking number. */
    method CreateBooking(
      key: RoomKey, guest: string, checkIn: Option<int>, checkOut: Option<int>, rooms: int, id: string)
      returns (error: Option<Error>)
      requires Valid() && id != "" && id !in bookings
      modifies this
      ensures Valid()
      ensures BookingError(key, guest, checkIn, checkOut, rooms).Some? ==>
              error == BookingError(key, guest, checkIn, checkOut, rooms)
      ensures BookingError(key, guest, checkIn, checkOut, rooms).None? ==>
                && key in old(inventory) && checkIn.Some? && checkOut.Some?
                && (error.None? <==> HasRoom(old(inventory)[key], checkIn.value, checkOut.value, rooms))
                && (error.Some? ==> error.value.Insufficient? && Free(old(inventory)[key], error.value.date) < rooms
                                    && IsNight(error.value.date, checkIn.value, checkOut.value)
                                    && HasRoom(old(inventory)[key], checkIn.value, error.value.date, rooms))
      ensures error.None? ==>
                && id in bookings && bookings == old(bookings)[id := bookings[id]]
                && bookings[id] == Booking(key, guest, checkIn.value, checkOut.value, rooms, true)
                && key in inventory && inventory == old(inventory)[key := inventory[key]]
                && inventory[key].Keys == old(inventory)[key].Keys
                && forall date :: date in inventory[key] ==>
                     inventory[key][date] ==
                     old(inventory)[key][date] - (if checkIn.value <= date < checkOut.value then rooms else 0)
      ensures error.Some? ==> Now() == old(Now())
      ensures error.None? ==>
                key in old(inventory) && checkIn.Some? && checkOut.Some? &&
                Now() == AfterCreate(old(Now()), id, Booking(key, guest, checkIn.value, checkOut.value, rooms, true))
      ensures forall k, date :: Capacity(Now(), k, date) == old(Capacity(Now(), k, date))
      ensures BookingError(key, guest, checkIn, checkOut, rooms).None? ==>
                && checkIn.Some? && checkOut.Some?
                && var request := Create(id, Booking(key, guest, checkIn.value, checkOut.value, rooms, true));
                   IsRequest(old(Now()), request) && Now() == Next(old(Now()), request)
    {
      error := BookingError(key, guest, checkIn, checkOut, rooms);
      if error.Some? {
        return;
      }
      var from, to := checkIn.value, checkOut.value;
      var lacking := FindLackingNight(inventory[key], from, to, rooms);
      if lacking.Some? {
        return Some(Insufficient(lacking.value));
      }
      TakeRooms(id, Booking(key, guest, from, to, rooms, true));
      error := None;
    }

    /** Every night of the booking has room: takes the rooms and stores the booking. */
    method TakeRooms(id: string, b: Booking)
      requires Valid() && id != "" && id !in bookings && b.confirmed && b.key in inventory
      requires b.checkIn < b.checkOut && b.rooms >= 1 && HasRoom(inventory[b.key], b.checkIn, b.checkOut, b.rooms)
      requires forall date :: b.checkIn <= date < b.checkOut ==>
                 date in inventory[b.key] && inventory[b.key][date] >= b.rooms
      modifies this
      ensures Valid() && Now() == AfterCreate(old(Now()), id, b)
      ensures forall k, date :: Capacity(Now(), k, date) == old(Capacity(Now(), k, date))
      ensures bookings == old(bookings)[id := b]
      ensures b.key in inventory && inventory == old(inventory)[b.key := inventory[b.key]]
      ensures inventory[b.key].Keys == old(inventory)[b.key].Keys
      ensures forall date :: date in inventory[b.key] ==>
                inventory[b.key][date] ==
                old(inventory)[b.key][date] - (if b.checkIn <= date < b.checkOut then b.rooms else 0)
    {
      CreateTakesNights(Now(), id, b);
      CreateConserves(Now(), id, b);
      var calendar := ShiftNights(inventory[b.key], b.checkIn, b.checkOut, -b.rooms);
      inventory := inventory[b.key := calendar];
      bookings := bookings[id := b];
    }

    /** Adds `delta` to each night in turn. */
    static method ShiftNights(c: Calendar, from: int, to: int, delta: int) returns (shifted: Calendar)
      requires from <= to
      ensures shifted == Shifted(c, from, to, delta)
    {
      shifted := c;
      var date := from;
      while date < to
        invariant from <= date <= to && shifted == Shifted(c, from, date, delta)
      {
        shifted := shifted[date := Free(shifted, date) + delta];
        date := date + 1;
      }
    }

    method CancelBooking(id: string) returns (error: Option<Error>)
      requires Valid()
      modifies this
      ensures Valid()
      ensures error.None? <==> id in old(bookings) && old(bookings)[id].confirmed
      ensures error == Some(BookingRequired) <==> id == ""
      ensures error == Some(BookingNotFound) <==> id != "" && id !in old(bookings)
      ensures error.Some? ==> Now() == old(Now())
      ensures error.None? ==> old(bookings)[id].key in old(inventory) && Now() == AfterCancel(old(Now()), id)
      ensures error.None? ==>
                var b := old(bookings)[id];
                && b.key in inventory
                && forall date :: b.checkIn <= date < b.checkOut ==>
                     && date in inventory[b.key]
                     && inventory[b.key][date] ==
                        (if date in old(inventory)[b.key] then old(inventory)[b.key][date] else 0) + b.rooms
      ensures forall k, date :: Capacity(Now(), k, date) == old(Capacity(Now(), k, date))
      ensures Now() == Next(old(Now()), Cancel(id))
    {
      if id == "" {
        return Some(BookingRequired);
      }
      if id !in bookings {
        return Some(BookingNotFound);
      }
      var booking := bookings[id];
      if !booking.confirmed {
        return Some(AlreadyCancelled);
      }
      CancelConserves(Now(), id);
      CancelReturnsNights(Now(), id);
      var calendar := ShiftNights(inventory[booking.key], booking.checkIn, booking.checkOut, booking.rooms);
      inventory := inventory[booking.key := calendar];
      bookings := bookings[id := booking.(confirmed := false)];
      error := None;
    }

    method PushInventory(key: RoomKey, pushed: Calendar) returns (error: Option<Error>)
      requires Valid()
      modifies this`inventory
      ensures Valid()
      ensures error.None? <==>
              KnowsRoom(key) && pushed != map[] && forall date :: date in pushed ==> pushed[date] >= 0
      ensures error == Some(InventoryRequired) <==> KnowsRoom(key) && pushed == map[]
      ensures error.Some? ==> inventory == old(inventory)
      ensures error.None? ==> IsRequest(old(Now()), Push(key, pushed)) && Now() == Next(old(Now()), Push(key, pushed))
      ensures error.None? ==> key in old(inventory) && inventory == old(inventory)[key := old(inventory)[key] + pushed]
      ensures error.None? ==>
                key in old(inventory) &&
                forall k, date :: Capacity(Now(), k, date) ==
                  old(Capacity(Now(), k, date)) + Moved(old(inventory)[key], key, pushed, k, date)
    {
      error := KeyError(key);
      if error.Some? {
        return;
      }
      if pushed == map[] {
        return Some(InventoryRequired);
      }
      if exists date :: date in pushed && pushed[date] < 0 {
        return Some(NegativeInventory);
      }
      PushMovesCapacity(Now(), key, pushed);
      inventory := inventory[key := inventory[key] + pushed];
    }
  }
}
