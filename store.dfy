/** The running service: one store holding the three tables, changed in place
    by the handlers of `main.py` and by `seed_data`. Each method follows the
    source step by step (queries, `db.add`, `db.commit`, `db.rollback`, the
    loops that build the response lists) and is proved to leave the store and
    answer exactly as the corresponding function of `Handlers` or `Seed`
    says, keeping the store's invariant. */
module App {
  import opened Text
  import opened Models
  import opened Ordering
  import opened Handlers
  import Seed

  class Store {
    var classes: seq<FitnessClass>
    var bookings: seq<Booking>
    var users: seq<User>

    /** The tables as a value. */
    function Snapshot(): Db
      reads this
    {
      Db(classes, bookings, users)
    }

    /** The store's invariant. The source demands nothing of the store before
        a request, so the mutators do not require it; each one keeps it: a
        valid store stays valid. */
    ghost predicate Valid()
      reads this
    {
      Inv(Snapshot())
    }

    /** `Base.metadata.create_all`: a new database file has three empty
        tables. */
    constructor ()
      ensures Snapshot() == EmptyDb
      ensures Valid()
    {
      classes, bookings, users := [], [], [];
      EmptyInv();
    }

    /** `seed_data`: nothing happens when a class exists; otherwise each seed
        tuple is added to the session in list order and the whole batch is
        committed at the end, getting the next rowids. */
    method SeedData(today: Instant)
      modifies this
      ensures Snapshot() == Seed.Seed(old(Snapshot()), today)
      ensures old(Valid()) ==> Valid()
    {
      if |classes| > 0 {
        return;
      }
      var pending: seq<FitnessClass> := [];
      for i := 0 to |Seed.SeedRows|
        invariant pending == Seed.SeededClasses(today)[..i]
      {
        var row := Seed.SeedRows[i];
        var start := Seed.IstToUtc(today + row.dayOffset * 86400 + row.hour * 3600);
        pending := pending + [FitnessClass(|classes| + |pending| + 1, row.name, row.instructor, start, row.capacity)];
      }
      if Valid() {
        Seed.SeedPreservesInv(Snapshot(), today);
      }
      classes := classes + pending;
    }

    /** `create_user`: look the lower-cased email up; a hit is refused;
        otherwise the user is added and committed under the next rowid. */
    method CreateUser(req: Schemas.UserCreate) returns (r: UserResult)
      modifies this
      ensures Outcome(Snapshot(), r) == Register(old(Snapshot()), req)
      ensures old(Valid()) ==> Valid()
    {
      var existing := FindUser(users, Lower(req.email));
      if existing.Some? {
        return EmailTaken;
      }
      var user := User(|users| + 1, req.name, Lower(req.email), req.password);
      if Valid() {
        RegisterPreservesInv(Snapshot(), req);
      }
      users := users + [user];
      r := Created(UserOut(user.id, user.name, user.email));
    }

    /** `book_class`: the class lookup, the capacity check, the duplicate
        check, then the insert; a commit the store rejects is rolled back and
        answered with a conflict. `commitRejected` is that verdict. */
    method BookClass(req: Schemas.BookIn, now: Instant, commitRejected: bool) returns (r: BookResult)
      modifies this
      ensures Outcome(Snapshot(), r) == Admit(old(Snapshot()), req, now, commitRejected)
      ensures old(Valid()) ==> Valid()
    {
      ghost var db := Snapshot();
      var found := FindClass(classes, req.classId);
      if found.None? {
        r := ClassNotFound;
      } else {
        var c := found.value;
        var bookedCount := Count(bookings, c.id);
        if c.capacity - bookedCount <= 0 {
          r := NoSlots;
        } else if HasBooking(bookings, c.id, Lower(req.clientEmail)) {
          r := Duplicate;
        } else {
          var booking := Booking(|bookings| + 1, req.classId, Strip(req.clientName), Lower(req.clientEmail), now);
          var before := bookings;
          bookings := bookings + [booking];
          if commitRejected {
            bookings := before;
            r := Conflict;
          } else {
            r := Booked(BookingView(booking, c, "UTC"));
          }
        }
      }
      assert Outcome(Snapshot(), r) == Admit(db, req, now, commitRejected);
      if Inv(db) {
        AdmitPreservesInv(db, req, now, commitRejected);
      }
    }

    /** `get_classes`: walk the classes in start order and, for each, count
        its bookings to report the free slots. */
    method GetClasses(tz: string, known: set<string>) returns (out: seq<ClassOut>)
      ensures out == ClassListing(Snapshot(), tz, known)
      ensures Valid() ==> forall o :: o in out ==> 0 <= o.availableSlots <= o.capacity
    {
      var zone := EnsureTzName(tz, known);
      var cs := SortBy(classes, StartOf);
      out := [];
      for i := 0 to |cs|
        invariant |out| == i
        invariant forall j :: 0 <= j < i ==> out[j] == ClassView(Snapshot(), cs[j], zone)
      {
        var c := cs[i];
        var booked := Count(bookings, c.id);
        var available := c.capacity - booked;
        out := out + [ClassOut(c.id, c.name, c.instructor, c.dateTime, zone, c.capacity, available)];
      }
      if Valid() {
        AvailableSlotsInRange(Snapshot(), tz, known);
      }
    }

    /** `get_bookings`: walk the joined (booking, class) rows of the
        lower-cased email in class start order, building one entry each. */
    method GetBookings(email: string, tz: string, known: set<string>) returns (out: seq<BookingOut>)
      ensures out == BookingListing(Snapshot(), email, tz, known)
      ensures Valid() ==> |out| == CountEmail(bookings, Lower(email))
    {
      var zone := EnsureTzName(tz, known);
      var rows := SortBy(Joined(bookings, classes, Lower(email)), RowStart);
      out := [];
      for i := 0 to |rows|
        invariant |out| == i
        invariant forall j :: 0 <= j < i ==> out[j] == BookingView(rows[j].0, rows[j].1, zone)
      {
        var b, c := rows[i].0, rows[i].1;
        out := out + [BookingView(b, c, zone)];
      }
      if Valid() {
        BookingListingLength(Snapshot(), email, tz, known);
      }
    }
  }

  /** Right after start-up on a new database, `/classes` lists the four seed
      classes in list order (which is their start order), with ids 1..4 and
      every slot free. */
  lemma SeededListing(today: Instant, tz: string, known: set<string>)
    ensures var r := ClassListing(Seed.Seed(EmptyDb, today), tz, known);
      && |r| == 4
      && forall i :: 0 <= i < 4 ==>
           && r[i].id == i + 1
           && r[i].name == Seed.SeedRows[i].name
           && r[i].instructor == Seed.SeedRows[i].instructor
           && r[i].capacity == Seed.SeedRows[i].capacity
           && r[i].availableSlots == r[i].capacity
  {
    var db := Seed.Seed(EmptyDb, today);
    var cs := Seed.SeededClasses(today);
    assert db.classes == cs && db.bookings == [];
    Seed.SeededInStartOrder(today);
    ListingInTableOrder(db, tz, known);
    var r := ClassListing(db, tz, known);
    forall i | 0 <= i < 4
      ensures && r[i].id == i + 1
              && r[i].name == Seed.SeedRows[i].name
              && r[i].instructor == Seed.SeedRows[i].instructor
              && r[i].capacity == Seed.SeedRows[i].capacity
              && r[i].availableSlots == r[i].capacity
    {
      assert r[i] == ClassView(db, cs[i], EnsureTzName(tz, known));
      assert cs[i] == Seed.SeededClass(today, i);
      assert Count(db.bookings, cs[i].id) == 0;
    }
  }
}
