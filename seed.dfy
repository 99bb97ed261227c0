/** The start-up population of the `classes` table: four classes, added only
    when the table is empty. */
module Seed {
  import opened Models
  import Ordering

  /** India Standard Time is UTC+05:30 all year round. */
  const IstOffset: int := 5 * 3600 + 30 * 60

  /** `ist_to_utc`: a wall-clock instant in IST as the same moment in UTC. */
  function IstToUtc(local: Instant): (utc: Instant)
    ensures utc + IstOffset == local
  {
    local - IstOffset
  }

  /** One tuple of the seed list: the start is `dayOffset` days after today at
      `hour`:00, IST. */
  datatype SeedRow = SeedRow(name: string, instructor: string, dayOffset: int, hour: int, capacity: int)

  const SeedRows: seq<SeedRow> := [
    SeedRow("Yoga", "Keneshia", 1, 7, 3),
    SeedRow("Zumba", "Guru", 1, 18, 4),
    SeedRow("HIIT", "Rishi", 2, 7, 2),
    SeedRow("Yoga", "Ridhi", 2, 18, 2)
  ]

  /** The UTC start of a seeded class; `today` is the local midnight of the day
      the store is seeded. */
  function SeedStart(today: Instant, row: SeedRow): Instant {
    IstToUtc(today + row.dayOffset * 86400 + row.hour * 3600)
  }

  /** The row `seed_data` adds for the `i`-th tuple, with the rowid it gets. */
  function SeededClass(today: Instant, i: nat): FitnessClass
    requires i < |SeedRows|
  {
    var row := SeedRows[i];
    FitnessClass(i + 1, row.name, row.instructor, SeedStart(today, row), row.capacity)
  }

  function SeededClasses(today: Instant): seq<FitnessClass> {
    seq(|SeedRows|, i requires 0 <= i < |SeedRows| => SeededClass(today, i))
  }

  /** `seed_data`: if the table already holds a class nothing changes;
      otherwise the four seed classes are added and nothing else is touched. */
  function Seed(db: Db, today: Instant): (r: Db)
    ensures |db.classes| > 0 ==> r == db
    ensures r.bookings == db.bookings && r.users == db.users
    ensures |r.classes| > 0
  {
    if |db.classes| > 0 then db
    else db.(classes := db.classes + SeededClasses(today))
  }

  /** On an empty table, exactly four classes are added, carrying the name,
      instructor and capacity of their tuple, in list order, with rowids 1..4;
      their capacities are 3, 4, 2 and 2. */
  lemma SeedPopulates(db: Db, today: Instant)
    requires db.classes == []
    ensures var cs := Seed(db, today).classes;
      && |cs| == 4
      && (forall i :: 0 <= i < 4 ==>
            && cs[i].id == i + 1
            && cs[i].name == SeedRows[i].name
            && cs[i].instructor == SeedRows[i].instructor
            && cs[i].capacity == SeedRows[i].capacity)
      && [cs[0].capacity, cs[1].capacity, cs[2].capacity, cs[3].capacity] == [3, 4, 2, 2]
  {
  }

  /** Seeding twice leaves the same store as seeding once. */
  lemma SeedIdempotent(db: Db, today: Instant, later: Instant)
    ensures Seed(Seed(db, today), later) == Seed(db, today)
  {
  }

  /** The seed classes start in list order: Yoga day 1 07:00, Zumba day 1
      18:00, HIIT day 2 07:00, Yoga day 2 18:00. */
  lemma {:induction false} SeededInStartOrder(today: Instant)
    ensures Ordering.SortedBy(SeededClasses(today), StartOf)
  {
    var cs := SeededClasses(today);
    assert cs[0].dateTime < cs[1].dateTime < cs[2].dateTime < cs[3].dateTime;
  }

  /** Seeding keeps the store's invariant: it only runs on an empty class
      table, which (every booking naming an existing class) has no bookings,
      and it adds classes with positive capacities under fresh rowids. */
  lemma SeedPreservesInv(db: Db, today: Instant)
    requires Inv(db)
    ensures Inv(Seed(db, today))
  {
    if db.classes == [] {
      var r := Seed(db, today);
      forall c | c in r.classes ensures Count(r.bookings, c.id) <= c.capacity {
        CountOfMissingClass(db, c.id);
      }
    }
  }
}
