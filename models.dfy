/** The three tables of the store (`users`, `classes`, `bookings`), the
    queries the handlers run against them, and the invariants the handlers
    keep. */
module Models {
  import opened Text

  datatype Option<T> = None | Some(value: T)

  /** A point on the UTC time axis, in seconds. Only its order matters to the
      handlers. */
  type Instant = int

  /** A row of `classes`. `dateTime` is stored in UTC. */
  datatype FitnessClass = FitnessClass(id: int, name: string, instructor: string, dateTime: Instant, capacity: int)

  /** A row of `bookings`. The table declares no unique constraint. */
  datatype Booking = Booking(id: int, classId: int, clientName: string, clientEmail: string, bookedAt: Instant)

  /** A row of `users`; `email` is declared unique. */
  datatype User = User(id: int, name: string, email: string, password: string)

  /** The whole store: each table in insertion (rowid) order. */
  datatype Db = Db(classes: seq<FitnessClass>, bookings: seq<Booking>, users: seq<User>)

  const EmptyDb: Db := Db([], [], [])

  /** The sort key of `order_by(FitnessClass.date_time)`. */
  function StartOf(c: FitnessClass): Instant {
    c.dateTime
  }

  // ---------------------------------------------------------------------
  // Queries

  /** `query(FitnessClass).filter(id == k).first()`. */
  function FindClass(cs: seq<FitnessClass>, k: int): (r: Option<FitnessClass>)
    ensures r.Some? ==> r.value in cs && r.value.id == k
    ensures r.None? <==> forall c :: c in cs ==> c.id != k
  {
    if cs == [] then None
    else if cs[0].id == k then Some(cs[0])
    else
      assert forall c :: c in cs ==> c == cs[0] || c in cs[1..];
      FindClass(cs[1..], k)
  }

  /** `query(Booking).filter(class_id == k).count()`. */
  function Count(bs: seq<Booking>, k: int): (n: nat)
    ensures n <= |bs|
    ensures n == 0 <== forall b :: b in bs ==> b.classId != k
  {
    if bs == [] then 0
    else
      assert forall b :: b in bs ==> b in bs[..|bs| - 1] || b == bs[|bs| - 1];
      Count(bs[..|bs| - 1], k) + (if bs[|bs| - 1].classId == k then 1 else 0)
  }

  /** Appending one booking raises the count of its own class by one and leaves
      every other class's count alone. */
  lemma CountAppend(bs: seq<Booking>, b: Booking, k: int)
    ensures Count(bs + [b], k) == Count(bs, k) + (if b.classId == k then 1 else 0)
  {
    assert (bs + [b])[..|bs|] == bs;
  }

  /** `query(Booking).filter(class_id == k, client_email == e).first()` is not
      None. */
  function HasBooking(bs: seq<Booking>, k: int, e: string): (found: bool)
    ensures found <==> exists i :: 0 <= i < |bs| && bs[i].classId == k && bs[i].clientEmail == e
  {
    if bs == [] then false
    else if bs[0].classId == k && bs[0].clientEmail == e then true
    else
      assert forall i :: 1 <= i < |bs| ==> bs[i] == bs[1..][i - 1];
      HasBooking(bs[1..], k, e)
  }

  /** `query(User).filter(email == e).first()`. */
  function FindUser(us: seq<User>, e: string): (r: Option<User>)
    ensures r.Some? ==> r.value in us && r.value.email == e
    ensures r.None? <==> forall u :: u in us ==> u.email != e
  {
    if us == [] then None
    else if us[0].email == e then Some(us[0])
    else
      assert forall u :: u in us ==> u == us[0] || u in us[1..];
      FindUser(us[1..], e)
  }

  // ---------------------------------------------------------------------
  // Invariants

  /** Every table's ids are its rowids 1, 2, 3, ...: SQLite gives a new row
      the largest rowid plus one, and no handler deletes rows. */
  ghost predicate Keyed(db: Db) {
    && (forall i :: 0 <= i < |db.classes| ==> db.classes[i].id == i + 1)
    && (forall i :: 0 <= i < |db.bookings| ==> db.bookings[i].id == i + 1)
    && (forall i :: 0 <= i < |db.users| ==> db.users[i].id == i + 1)
  }

  /** Every class was created with a positive capacity. */
  ghost predicate CapacitiesPositive(cs: seq<FitnessClass>) {
    forall c :: c in cs ==> c.capacity > 0
  }

  /** Every booking refers to an existing class. */
  ghost predicate BookingsReferenceClasses(db: Db) {
    forall b :: b in db.bookings ==> FindClass(db.classes, b.classId).Some?
  }

  /** Stored emails are lower-case, so comparing them with a lowered request
      email is comparing case-insensitively. */
  ghost predicate EmailsLowered(db: Db) {
    && (forall b :: b in db.bookings ==> Lower(b.clientEmail) == b.clientEmail)
    && (forall u :: u in db.users ==> Lower(u.email) == u.email)
  }

  /** Capacity: no class holds more bookings than its capacity. */
  ghost predicate WithinCapacity(db: Db) {
    forall c :: c in db.classes ==> Count(db.bookings, c.id) <= c.capacity
  }

  /** No duplicate pair: at most one booking per (class, lowered email). */
  ghost predicate NoDuplicateBookings(bs: seq<Booking>) {
    forall i, j :: 0 <= i < j < |bs| ==> bs[i].classId != bs[j].classId || bs[i].clientEmail != bs[j].clientEmail
  }

  /** The unique constraint on `users.email`. */
  ghost predicate UniqueUserEmails(us: seq<User>) {
    forall i, j :: 0 <= i < j < |us| ==> us[i].email != us[j].email
  }

  ghost predicate Inv(db: Db) {
    && Keyed(db)
    && CapacitiesPositive(db.classes)
    && BookingsReferenceClasses(db)
    && EmailsLowered(db)
    && WithinCapacity(db)
    && NoDuplicateBookings(db.bookings)
    && UniqueUserEmails(db.users)
  }

  /** The empty store (a fresh database file) satisfies the invariant. */
  lemma EmptyInv()
    ensures Inv(EmptyDb)
  {
  }

  /** A class that does not exist has no bookings. */
  lemma CountOfMissingClass(db: Db, k: int)
    requires BookingsReferenceClasses(db)
    requires FindClass(db.classes, k).None?
    ensures Count(db.bookings, k) == 0
  {
    forall b | b in db.bookings ensures b.classId != k {
      assert FindClass(db.classes, b.classId).Some?;
    }
  }

  /** In a keyed table, looking a class up by id is indexing by id - 1. */
  lemma FindClassKeyed(db: Db, k: int)
    requires Keyed(db)
    ensures FindClass(db.classes, k) == if 1 <= k <= |db.classes| then Some(db.classes[k - 1]) else None
  {
    var cs := db.classes;
    if 1 <= k <= |cs| {
      assert cs[k - 1] in cs;
      var c := FindClass(cs, k).value;
      var i :| 0 <= i < |cs| && cs[i] == c;
    }
  }
}
