/** What each request handler does to the store and what it answers, as
    functions of the store before the request. The `Store` class's methods
    are proved to follow these. */
module Handlers {
  import opened Text
  import opened Models
  import opened Schemas
  import opened Ordering

  /** A handler's answer together with the store it leaves behind. */
  datatype Outcome<R> = Outcome(db: Db, result: R)

  // ---------------------------------------------------------------------
  // Time zones

  const DefaultZone: string := "Asia/Kolkata"

  /** `ensure_tz_name`: a name the zone database (`known`) recognises is kept,
      any other falls back to India Standard Time. */
  function EnsureTzName(tz: string, known: set<string>): (zone: string)
    ensures zone in known || zone == DefaultZone
    ensures tz in known ==> zone == tz
    ensures tz !in known ==> zone == DefaultZone
  {
    if tz in known then tz else DefaultZone
  }

  // ---------------------------------------------------------------------
  // POST /users

  datatype UserOut = UserOut(id: int, name: string, email: string)
  datatype UserResult = Created(user: UserOut) | EmailTaken

  /** `create_user`: an email whose lower-case form is already registered is
      rejected and nothing changes; otherwise one user is appended, with the
      email stored lower-cased. */
  function Register(db: Db, req: UserCreate): (o: Outcome<UserResult>)
    ensures o.result.EmailTaken? <==> exists u :: u in db.users && u.email == Lower(req.email)
    ensures o.result.EmailTaken? ==> o.db == db
    ensures o.result.Created? ==>
      && o.db == db.(users := db.users + [User(|db.users| + 1, req.name, Lower(req.email), req.password)])
      && o.result.user == UserOut(|db.users| + 1, req.name, Lower(req.email))
  {
    var email := Lower(req.email);
    if FindUser(db.users, email).Some? then Outcome(db, EmailTaken)
    else
      var user := User(|db.users| + 1, req.name, email, req.password);
      Outcome(db.(users := db.users + [user]), Created(UserOut(user.id, user.name, user.email)))
  }

  /** Registration keeps the store's invariant: user emails stay unique and
      lower-case, and user ids stay the rowids. */
  lemma RegisterPreservesInv(db: Db, req: UserCreate)
    requires Inv(db)
    ensures Inv(Register(db, req).db)
  {
    var o := Register(db, req);
    if o.result.Created? {
      LowerIdempotent(req.email);
      var us := o.db.users;
      forall i, j | 0 <= i < j < |us| ensures us[i].email != us[j].email {
        if j == |db.users| {
          assert us[i] in db.users;
        } else {
          assert us[i] == db.users[i] && us[j] == db.users[j];
        }
      }
      forall u | u in us ensures Lower(u.email) == u.email {
        if u != us[|db.users|] {
          assert u in db.users;
        }
      }
    }
  }

  /** Registering the same address twice, in any mix of upper and lower case,
      is rejected the second time. */
  lemma RegisterTwiceRejected(db: Db, req: UserCreate, again: UserCreate)
    requires Lower(again.email) == Lower(req.email)
    ensures Register(Register(db, req).db, again).result.EmailTaken?
  {
    var o := Register(db, req);
    if o.result.Created? {
      assert o.db.users[|db.users|] in o.db.users;
    }
  }

  // ---------------------------------------------------------------------
  // POST /book

  /** The confirmation returned for a booking and listed by `/bookings`. */
  datatype BookingOut = BookingOut(
    id: int, classId: int, clientName: string, clientEmail: string, createdAt: Instant,
    className: string, instructor: string, startTime: Instant, timezone: string)

  datatype BookResult = Booked(booking: BookingOut) | ClassNotFound | NoSlots | Duplicate | Conflict

  function BookingView(b: Booking, c: FitnessClass, zone: string): BookingOut {
    BookingOut(b.id, b.classId, b.clientName, b.clientEmail, b.bookedAt, c.name, c.instructor, c.dateTime, zone)
  }

  /** The row `book_class` inserts: the next rowid, the requested class, the
      stripped name, the lower-cased email and the request time. */
  function NewBooking(db: Db, req: BookIn, now: Instant): Booking {
    Booking(|db.bookings| + 1, req.classId, Strip(req.clientName), Lower(req.clientEmail), now)
  }

  /** `book_class`. The checks run in order: the class must exist, must have a
      free slot, and must not already hold a booking for the lower-cased email;
      then the row is added and committed. `commitRejected` is the store's
      verdict on the commit: a rejected commit is rolled back and reported as
      a conflict. Every error leaves the store as it was; success appends
      exactly one booking and changes nothing else. */
  function Admit(db: Db, req: BookIn, now: Instant, commitRejected: bool): (o: Outcome<BookResult>)
    ensures !o.result.Booked? ==> o.db == db
    ensures o.result.Booked? ==> o.db == db.(bookings := db.bookings + [NewBooking(db, req, now)])
  {
    match FindClass(db.classes, req.classId)
    case None => Outcome(db, ClassNotFound)
    case Some(c) =>
      if c.capacity - Count(db.bookings, c.id) <= 0 then Outcome(db, NoSlots)
      else if HasBooking(db.bookings, c.id, Lower(req.clientEmail)) then Outcome(db, Duplicate)
      else if commitRejected then Outcome(db, Conflict)
      else
        var row := NewBooking(db, req, now);
        Outcome(db.(bookings := db.bookings + [row]), Booked(BookingView(row, c, "UTC")))
  }

  /** Which answer `book_class` gives, in terms of the store: not found when
      no class has the id; otherwise no slots when the class is full (whether
      or not the email already booked it); otherwise duplicate when a booking
      for the class and the lower-cased email exists; otherwise conflict when
      the commit is rejected; otherwise a confirmation of the new row with the
      class's display fields, in UTC. */
  lemma AdmitDecision(db: Db, req: BookIn, now: Instant, commitRejected: bool)
    ensures var r := Admit(db, req, now, commitRejected).result;
      var found := FindClass(db.classes, req.classId);
      var full := found.Some? && Count(db.bookings, req.classId) >= found.value.capacity;
      var booked := exists i :: 0 <= i < |db.bookings| && db.bookings[i].classId == req.classId
                               && db.bookings[i].clientEmail == Lower(req.clientEmail);
      && (r.ClassNotFound? <==> forall c :: c in db.classes ==> c.id != req.classId)
      && (r.NoSlots? <==> full)
      && (r.Duplicate? <==> found.Some? && !full && booked)
      && (r.Conflict? <==> found.Some? && !full && !booked && commitRejected)
      && (r.Booked? <==> found.Some? && !full && !booked && !commitRejected)
      && (r.Booked? ==> r.booking == BookingView(NewBooking(db, req, now), found.value, "UTC"))
  {
    var found := FindClass(db.classes, req.classId);
    if found.Some? {
      assert found.value.id == req.classId;
    }
  }

  /** Error precedence: a full class reports no slots even when the same
      lower-cased email already holds a booking in it. */
  lemma FullClassReportsNoSlots(db: Db, req: BookIn, now: Instant, commitRejected: bool, i: nat)
    requires FindClass(db.classes, req.classId).Some?
    requires Count(db.bookings, req.classId) >= FindClass(db.classes, req.classId).value.capacity
    requires i < |db.bookings| && db.bookings[i].classId == req.classId
    requires db.bookings[i].clientEmail == Lower(req.clientEmail)
    ensures Admit(db, req, now, commitRejected) == Outcome(db, NoSlots)
  {
  }

  /** The per-class counts after `book_class`: only the booked class gains
      one, and only on success. */
  lemma AdmitCounts(db: Db, req: BookIn, now: Instant, commitRejected: bool, k: int)
    ensures var o := Admit(db, req, now, commitRejected);
      Count(o.db.bookings, k) == Count(db.bookings, k) + (if o.result.Booked? && k == req.classId then 1 else 0)
  {
    var o := Admit(db, req, now, commitRejected);
    if o.result.Booked? {
      CountAppend(db.bookings, NewBooking(db, req, now), k);
    }
  }

  /** `book_class` keeps the store's invariant; in particular no class ever
      holds more bookings than its capacity, and no class holds two
      bookings for one lower-cased email. */
  lemma AdmitPreservesInv(db: Db, req: BookIn, now: Instant, commitRejected: bool)
    requires Inv(db)
    ensures Inv(Admit(db, req, now, commitRejected).db)
  {
    var o := Admit(db, req, now, commitRejected);
    if o.result.Booked? {
      var row := NewBooking(db, req, now);
      var c := FindClass(db.classes, req.classId).value;
      LowerIdempotent(req.clientEmail);
      AppendKeepsCapacity(db, row, c);
      AppendKeepsNoDuplicates(db.bookings, row);
      AppendKeepsReferences(db, row);
    }
  }

  /** The capacity invariant survives appending a booking for a class that
      still had a free slot. */
  lemma AppendKeepsCapacity(db: Db, row: Booking, c: FitnessClass)
    requires Keyed(db) && WithinCapacity(db)
    requires FindClass(db.classes, row.classId) == Some(c) && Count(db.bookings, c.id) < c.capacity
    ensures WithinCapacity(db.(bookings := db.bookings + [row]))
  {
    forall d | d in db.classes ensures Count(db.bookings + [row], d.id) <= d.capacity {
      CountAppend(db.bookings, row, d.id);
      if d.id == row.classId {
        FindClassKeyed(db, d.id);
        var i :| 0 <= i < |db.classes| && db.classes[i] == d;
      }
    }
  }

  /** The no-duplicate invariant survives appending a booking whose (class, email) pair is new. */
  lemma AppendKeepsNoDuplicates(bs: seq<Booking>, row: Booking)
    requires NoDuplicateBookings(bs) && !HasBooking(bs, row.classId, row.clientEmail)
    ensures NoDuplicateBookings(bs + [row])
  {
    var bs' := bs + [row];
    forall i, j | 0 <= i < j < |bs'| ensures bs'[i].classId != bs'[j].classId || bs'[i].clientEmail != bs'[j].clientEmail {
      if j < |bs| {
        assert bs'[i] == bs[i] && bs'[j] == bs[j];
      } else {
        assert bs'[i] == bs[i];
      }
    }
  }

  /** Appending a booking for an existing class, with the next rowid and a
      lower-case email, keeps every booking pointing at a class, every email
      lower-case and every id a rowid. */
  lemma AppendKeepsReferences(db: Db, row: Booking)
    requires Keyed(db) && BookingsReferenceClasses(db) && EmailsLowered(db)
    requires FindClass(db.classes, row.classId).Some? && Lower(row.clientEmail) == row.clientEmail
    requires row.id == |db.bookings| + 1
    ensures var db' := db.(bookings := db.bookings + [row]);
      Keyed(db') && BookingsReferenceClasses(db') && EmailsLowered(db')
  {
    var bs' := db.bookings + [row];
    forall b | b in bs' ensures FindClass(db.classes, b.classId).Some? && Lower(b.clientEmail) == b.clientEmail {
      if b != row {
        assert b in db.bookings;
      }
    }
  }

  /** Booking the same class again with the same email, in any mix of case,
      while the class still has room, is a duplicate and changes nothing. */
  lemma RebookIsDuplicate(db: Db, req: BookIn, again: BookIn, now: Instant, later: Instant, commitRejected: bool)
    requires Admit(db, req, now, false).result.Booked?
    requires again.classId == req.classId && Lower(again.clientEmail) == Lower(req.clientEmail)
    requires var db1 := Admit(db, req, now, false).db;
      Count(db1.bookings, req.classId) < FindClass(db1.classes, req.classId).value.capacity
    ensures var db1 := Admit(db, req, now, false).db;
      Admit(db1, again, later, commitRejected) == Outcome(db1, Duplicate)
  {
    var db1 := Admit(db, req, now, false).db;
    assert db1.bookings[|db.bookings|].classId == again.classId;
  }

  /** A run of bookings, one after another, none rejected at commit. */
  function AdmitAll(db: Db, reqs: seq<BookIn>, now: Instant): (o: Outcome<seq<BookResult>>)
    ensures |o.result| == |reqs|
    decreases |reqs|
  {
    if reqs == [] then Outcome(db, [])
    else
      var first := Admit(db, reqs[0], now, false);
      var rest := AdmitAll(first.db, reqs[1..], now);
      Outcome(rest.db, [first.result] + rest.result)
  }

  /** Requests for class `k`, with pairwise distinct lower-cased emails, none
      of which already holds a booking in `k`. */
  ghost predicate FreshRequests(bs: seq<Booking>, reqs: seq<BookIn>, k: int) {
    && (forall r :: r in reqs ==> r.classId == k && !HasBooking(bs, k, Lower(r.clientEmail)))
    && (forall i, j :: 0 <= i < j < |reqs| ==> Lower(reqs[i].clientEmail) != Lower(reqs[j].clientEmail))
  }

  /** One fresh request against an existing class: admitted exactly when the
      class has room, refused with no slots otherwise; the remaining requests
      stay fresh. */
  lemma AdmitFresh(db: Db, reqs: seq<BookIn>, now: Instant, c: FitnessClass)
    requires reqs != [] && FreshRequests(db.bookings, reqs, c.id)
    requires FindClass(db.classes, c.id) == Some(c)
    ensures var o := Admit(db, reqs[0], now, false);
      && (o.result.Booked? <==> Count(db.bookings, c.id) < c.capacity)
      && (o.result.Booked? || o.result.NoSlots?)
      && o.db.classes == db.classes
      && Count(o.db.bookings, c.id) == Count(db.bookings, c.id) + (if o.result.Booked? then 1 else 0)
      && FreshRequests(o.db.bookings, reqs[1..], c.id)
  {
    assert reqs[0] in reqs;
    AdmitCounts(db, reqs[0], now, false, c.id);
    FreshTail(db, reqs, now, c.id);
  }

  /** After the first of a run of fresh requests is handled, the rest are
      still fresh. */
  lemma FreshTail(db: Db, reqs: seq<BookIn>, now: Instant, k: int)
    requires reqs != [] && FreshRequests(db.bookings, reqs, k)
    ensures FreshRequests(Admit(db, reqs[0], now, false).db.bookings, reqs[1..], k)
  {
    var o := Admit(db, reqs[0], now, false);
    var tail := reqs[1..];
    forall r | r in tail ensures r.classId == k && !HasBooking(o.db.bookings, k, Lower(r.clientEmail)) {
      var j :| 0 <= j < |tail| && tail[j] == r;
      assert reqs[j + 1] == r;
      if o.result.Booked? {
        HasBookingAppend(db.bookings, NewBooking(db, reqs[0], now), k, Lower(r.clientEmail));
      }
    }
    forall i, j | 0 <= i < j < |tail| ensures Lower(tail[i].clientEmail) != Lower(tail[j].clientEmail) {
      assert tail[i] == reqs[i + 1] && tail[j] == reqs[j + 1];
    }
  }

  /** Appending a booking adds exactly its own (class, email) pair to those
      `HasBooking` finds. */
  lemma HasBookingAppend(bs: seq<Booking>, b: Booking, k: int, e: string)
    ensures HasBooking(bs + [b], k, e) <==> HasBooking(bs, k, e) || (b.classId == k && b.clientEmail == e)
  {
    var bs' := bs + [b];
    if HasBooking(bs', k, e) && !(b.classId == k && b.clientEmail == e) {
      var i :| 0 <= i < |bs'| && bs'[i].classId == k && bs'[i].clientEmail == e;
      assert bs'[i] == bs[i];
    }
    if HasBooking(bs, k, e) {
      var i :| 0 <= i < |bs| && bs[i].classId == k && bs[i].clientEmail == e;
      assert bs'[i] == bs[i];
    }
    assert bs'[|bs|] == b;
  }

  function Min(a: int, b: int): int {
    if a <= b then a else b
  }

  /** The answers to a run of requests for one class with `free` slots left:
      the first `free` are confirmations, the rest are refusals for lack of
      slots. */
  ghost predicate FillsUp(rs: seq<BookResult>, free: int) {
    forall i :: 0 <= i < |rs| ==> (rs[i].Booked? <==> i < free) && (rs[i].Booked? || rs[i].NoSlots?)
  }

  lemma FillsUpCons(x: BookResult, rest: seq<BookResult>, free: int)
    requires x.Booked? <==> 0 < free
    requires x.Booked? || x.NoSlots?
    requires FillsUp(rest, if x.Booked? then free - 1 else free)
    ensures FillsUp([x] + rest, free)
  {
    var rs := [x] + rest;
    forall i | 0 < i < |rs| ensures (rs[i].Booked? <==> i < free) && (rs[i].Booked? || rs[i].NoSlots?) {
      assert rs[i] == rest[i - 1];
    }
  }

  /** Filling a class: fresh requests are admitted while slots remain and are
      all refused with no slots afterwards. With capacity 4, no bookings and
      ten requests: four confirmations, then six refusals. */
  lemma {:induction false} FillClass(db: Db, reqs: seq<BookIn>, now: Instant, c: FitnessClass)
    requires FindClass(db.classes, c.id) == Some(c)
    requires Count(db.bookings, c.id) <= c.capacity
    requires FreshRequests(db.bookings, reqs, c.id)
    ensures FillsUp(AdmitAll(db, reqs, now).result, c.capacity - Count(db.bookings, c.id))
    decreases |reqs|
  {
    if reqs != [] {
      var first := Admit(db, reqs[0], now, false);
      AdmitFresh(db, reqs, now, c);
      FillClass(first.db, reqs[1..], now, c);
      var rest := AdmitAll(first.db, reqs[1..], now);
      FillsUpCons(first.result, rest.result, c.capacity - Count(db.bookings, c.id));
    }
  }

  /** The number of confirmations among some answers. */
  function Confirmed(rs: seq<BookResult>): (n: nat)
    ensures n <= |rs|
  {
    if rs == [] then 0 else (if rs[0].Booked? then 1 else 0) + Confirmed(rs[1..])
  }

  /** A run of requests for class `k` adds one booking of `k` per
      confirmation. */
  lemma {:induction false} AdmitAllCount(db: Db, reqs: seq<BookIn>, now: Instant, k: int)
    requires forall r :: r in reqs ==> r.classId == k
    ensures var o := AdmitAll(db, reqs, now);
      Count(o.db.bookings, k) == Count(db.bookings, k) + Confirmed(o.result)
    decreases |reqs|
  {
    if reqs != [] {
      assert reqs[0] in reqs;
      var first := Admit(db, reqs[0], now, false);
      AdmitCounts(db, reqs[0], now, false, k);
      assert forall r :: r in reqs[1..] ==> r in reqs;
      AdmitAllCount(first.db, reqs[1..], now, k);
      var rest := AdmitAll(first.db, reqs[1..], now);
      assert ([first.result] + rest.result)[1..] == rest.result;
    }
  }

  /** Answers that fill `free` slots hold min(free, answers) confirmations;
      with `AdmitAllCount` and `FillClass`, a class with capacity 4, no
      bookings and ten fresh requests ends with four bookings. */
  lemma {:induction false} FillsUpConfirmed(rs: seq<BookResult>, free: int)
    requires free >= 0 && FillsUp(rs, free)
    ensures Confirmed(rs) == Min(free, |rs|)
  {
    if rs != [] {
      var tail := rs[1..];
      var free' := if rs[0].Booked? then free - 1 else free;
      assert FillsUp(tail, free') by {
        forall i | 0 <= i < |tail| ensures (tail[i].Booked? <==> i < free') && (tail[i].Booked? || tail[i].NoSlots?) {
          assert tail[i] == rs[i + 1];
        }
      }
      FillsUpConfirmed(tail, free');
    }
  }

  /** A run of fresh requests against a class with `free` slots left leaves
      min(free, requests) more bookings of it: with capacity 4, no bookings
      and ten fresh requests, four bookings are stored. */
  lemma FillClassCount(db: Db, reqs: seq<BookIn>, now: Instant, c: FitnessClass)
    requires FindClass(db.classes, c.id) == Some(c)
    requires Count(db.bookings, c.id) <= c.capacity
    requires FreshRequests(db.bookings, reqs, c.id)
    ensures Count(AdmitAll(db, reqs, now).db.bookings, c.id)
            == Count(db.bookings, c.id) + Min(c.capacity - Count(db.bookings, c.id), |reqs|)
  {
    FillClass(db, reqs, now, c);
    FillsUpConfirmed(AdmitAll(db, reqs, now).result, c.capacity - Count(db.bookings, c.id));
    AdmitAllCount(db, reqs, now, c.id);
  }

  // ---------------------------------------------------------------------
  // GET /classes

  datatype ClassOut = ClassOut(
    id: int, name: string, instructor: string, startTime: Instant, timezone: string,
    capacity: int, availableSlots: int)

  /** One listing entry; the free slots are counted live from the bookings. */
  function ClassView(db: Db, c: FitnessClass, zone: string): ClassOut {
    ClassOut(c.id, c.name, c.instructor, c.dateTime, zone, c.capacity, c.capacity - Count(db.bookings, c.id))
  }

  /** `get_classes`: one entry per class, ordered by start time. The start is
      given in UTC whatever the zone; the zone name is only echoed. */
  function ClassListing(db: Db, tz: string, known: set<string>): (r: seq<ClassOut>)
    ensures |r| == |db.classes|
  {
    var zone := EnsureTzName(tz, known);
    var sorted := SortBy(db.classes, StartOf);
    SortByLength(db.classes, StartOf);
    seq(|sorted|, i requires 0 <= i < |sorted| => ClassView(db, sorted[i], zone))
  }

  /** The listing holds exactly one entry per class (each class appears, and
      nothing else does), ordered by start time, each with
      capacity - (bookings of that class) free slots. */
  lemma ClassListingSpec(db: Db, tz: string, known: set<string>)
    ensures var r := ClassListing(db, tz, known);
      var zone := EnsureTzName(tz, known);
      && |r| == |db.classes|
      && (forall i, j :: 0 <= i < j < |r| ==> r[i].startTime <= r[j].startTime)
      && (forall c :: c in db.classes ==> ClassView(db, c, zone) in r)
      && (forall o :: o in r ==> exists c :: c in db.classes && o == ClassView(db, c, zone))
  {
    var r := ClassListing(db, tz, known);
    var zone := EnsureTzName(tz, known);
    var sorted := SortBy(db.classes, StartOf);
    SortByLength(db.classes, StartOf);
    SortBySorted(db.classes, StartOf);
    forall i, j | 0 <= i < j < |r| ensures r[i].startTime <= r[j].startTime {
      assert StartOf(sorted[i]) <= StartOf(sorted[j]);
    }
    forall c | c in db.classes ensures ClassView(db, c, zone) in r {
      assert c in multiset(sorted);
      var i :| 0 <= i < |sorted| && sorted[i] == c;
      assert r[i] == ClassView(db, c, zone);
    }
    forall o | o in r ensures exists c :: c in db.classes && o == ClassView(db, c, zone) {
      var i :| 0 <= i < |r| && r[i] == o;
      assert sorted[i] in multiset(db.classes);
    }
  }

  /** When the classes are stored in start order, the listing follows the
      table order. */
  lemma ListingInTableOrder(db: Db, tz: string, known: set<string>)
    requires SortedBy(db.classes, StartOf)
    ensures var r := ClassListing(db, tz, known);
      && |r| == |db.classes|
      && forall i :: 0 <= i < |r| ==> r[i] == ClassView(db, db.classes[i], EnsureTzName(tz, known))
  {
    SortBySortedIsIdentity(db.classes, StartOf);
  }

  /** While the capacity invariant holds, no listed class shows a negative number of free slots,
      nor more free slots than its capacity. */
  lemma AvailableSlotsInRange(db: Db, tz: string, known: set<string>)
    requires WithinCapacity(db)
    ensures forall o :: o in ClassListing(db, tz, known) ==> 0 <= o.availableSlots <= o.capacity
  {
    ClassListingSpec(db, tz, known);
  }

  // ---------------------------------------------------------------------
  // GET /bookings

  /** The join of `bookings` with `classes` on the class id, restricted to the
      bookings stored under email `e`, in table order. */
  function Joined(bs: seq<Booking>, cs: seq<FitnessClass>, e: string): (rows: seq<(Booking, FitnessClass)>)
    ensures forall row :: row in rows ==> row.0 in bs && row.0.clientEmail == e && FindClass(cs, row.0.classId) == Some(row.1)
    ensures forall b :: b in bs && b.clientEmail == e && FindClass(cs, b.classId).Some? ==>
              (b, FindClass(cs, b.classId).value) in rows
  {
    if bs == [] then []
    else
      var b := bs[0];
      var head := if b.clientEmail == e && FindClass(cs, b.classId).Some? then [(b, FindClass(cs, b.classId).value)] else [];
      assert forall x :: x in bs ==> x == b || x in bs[1..];
      head + Joined(bs[1..], cs, e)
  }

  /** The number of bookings stored under email `e`. */
  function CountEmail(bs: seq<Booking>, e: string): (n: nat)
    ensures n <= |bs|
    ensures n == 0 <== forall b :: b in bs ==> b.clientEmail != e
  {
    if bs == [] then 0
    else
      assert forall b :: b in bs[1..] ==> b in bs;
      (if bs[0].clientEmail == e then 1 else 0) + CountEmail(bs[1..], e)
  }

  /** When every booking names an existing class, the join drops none of
      them: it has one row per booking stored under `e`. */
  lemma {:induction false} JoinedLength(bs: seq<Booking>, cs: seq<FitnessClass>, e: string)
    requires forall b :: b in bs ==> FindClass(cs, b.classId).Some?
    ensures |Joined(bs, cs, e)| == CountEmail(bs, e)
    decreases |bs|
  {
    if bs != [] {
      assert bs[0] in bs;
      assert forall b :: b in bs[1..] ==> b in bs;
      JoinedLength(bs[1..], cs, e);
    }
  }

  /** The sort key of `order_by(FitnessClass.date_time)` on joined rows. */
  function RowStart(row: (Booking, FitnessClass)): Instant {
    row.1.dateTime
  }

  /** `get_bookings`: the bookings stored under the lower-cased email, each
      with its class's display fields, ordered by class start. */
  function BookingListing(db: Db, email: string, tz: string, known: set<string>): (r: seq<BookingOut>)
    ensures forall o :: o in r ==> o.clientEmail == Lower(email)
  {
    var zone := EnsureTzName(tz, known);
    var joined := Joined(db.bookings, db.classes, Lower(email));
    var rows := SortBy(joined, RowStart);
    assert forall i :: 0 <= i < |rows| ==> rows[i] in multiset(joined);
    seq(|rows|, i requires 0 <= i < |rows| => BookingView(rows[i].0, rows[i].1, zone))
  }

  /** The booking listing is ordered by class start. */
  lemma BookingListingOrdered(db: Db, email: string, tz: string, known: set<string>)
    ensures var r := BookingListing(db, email, tz, known);
      forall i, j :: 0 <= i < j < |r| ==> r[i].startTime <= r[j].startTime
  {
    var r := BookingListing(db, email, tz, known);
    var rows := SortBy(Joined(db.bookings, db.classes, Lower(email)), RowStart);
    SortBySorted(Joined(db.bookings, db.classes, Lower(email)), RowStart);
    forall i, j | 0 <= i < j < |r| ensures r[i].startTime <= r[j].startTime {
      assert RowStart(rows[i]) <= RowStart(rows[j]);
    }
  }

  /** Every listed entry is a booking stored under the lower-cased email,
      shown with its own class. */
  lemma BookingListingSound(db: Db, email: string, tz: string, known: set<string>)
    ensures var r := BookingListing(db, email, tz, known);
      var zone := EnsureTzName(tz, known);
      forall o :: o in r ==>
        (o.clientEmail == Lower(email)
         && exists b, c :: b in db.bookings && c in db.classes && c.id == b.classId && o == BookingView(b, c, zone))
  {
    var r := BookingListing(db, email, tz, known);
    var zone := EnsureTzName(tz, known);
    var joined := Joined(db.bookings, db.classes, Lower(email));
    var rows := SortBy(joined, RowStart);
    forall o | o in r ensures o.clientEmail == Lower(email)
      && exists b, c :: b in db.bookings && c in db.classes && c.id == b.classId && o == BookingView(b, c, zone)
    {
      var i :| 0 <= i < |r| && r[i] == o;
      assert rows[i] in multiset(joined);
      var b, c := rows[i].0, rows[i].1;
      assert FindClass(db.classes, b.classId) == Some(c);
    }
  }

  /** As every booking names an existing class, every booking stored under
      the lower-cased email is listed. */
  lemma BookingListingComplete(db: Db, email: string, tz: string, known: set<string>)
    requires BookingsReferenceClasses(db)
    ensures var r := BookingListing(db, email, tz, known);
      var zone := EnsureTzName(tz, known);
      forall b :: b in db.bookings && b.clientEmail == Lower(email) ==>
        exists c :: c in db.classes && BookingView(b, c, zone) in r
  {
    var r := BookingListing(db, email, tz, known);
    var zone := EnsureTzName(tz, known);
    var rows := SortBy(Joined(db.bookings, db.classes, Lower(email)), RowStart);
    forall b | b in db.bookings && b.clientEmail == Lower(email)
      ensures exists c :: c in db.classes && BookingView(b, c, zone) in r
    {
      var c := FindClass(db.classes, b.classId).value;
      assert (b, c) in multiset(rows);
      var i :| 0 <= i < |rows| && rows[i] == (b, c);
      assert r[i] == BookingView(b, c, zone);
    }
  }

  /** As every booking names an existing class, the listing has exactly one
      entry per booking stored under the lower-cased email: with
      `BookingListingSound` and `BookingListingComplete`, no booking is
      listed twice. */
  lemma BookingListingLength(db: Db, email: string, tz: string, known: set<string>)
    requires BookingsReferenceClasses(db)
    ensures |BookingListing(db, email, tz, known)| == CountEmail(db.bookings, Lower(email))
  {
    JoinedLength(db.bookings, db.classes, Lower(email));
    SortByLength(Joined(db.bookings, db.classes, Lower(email)), RowStart);
  }

  /** A confirmed booking shows up in the booker's `/bookings` listing, under
      any case of the email. */
  lemma BookedIsListed(db: Db, req: BookIn, now: Instant, email: string, tz: string, known: set<string>)
    requires Inv(db)
    requires Lower(email) == Lower(req.clientEmail)
    requires Admit(db, req, now, false).result.Booked?
    ensures var o := Admit(db, req, now, false);
      exists c :: c in o.db.classes && BookingView(NewBooking(db, req, now), c, EnsureTzName(tz, known))
                                         in BookingListing(o.db, email, tz, known)
  {
    var o := Admit(db, req, now, false);
    AdmitPreservesInv(db, req, now, false);
    LowerIdempotent(req.clientEmail);
    var nb := NewBooking(db, req, now);
    assert nb == o.db.bookings[|db.bookings|];
    BookingListingComplete(o.db, email, tz, known);
  }
}
