# Fitness-class booking store, modelled in Dafny

The model covers the booking back end of a small fitness studio service. Clients register (`POST /users`), list the scheduled classes with their free slots (`GET /classes`), book a slot (`POST /book`) and list their bookings by email (`GET /bookings`). At start-up the class table is seeded with four classes when it is empty.

The model has these modules:

- `Text` (`text.dfy`): Python's `str.lower()` on ASCII letters, and `str.strip()` with Python's whitespace set.
- `Ordering` (`ordering.dfy`): the `ORDER BY date_time` of the queries, as a stable insertion sort by an integer key.
- `Models` (`models.dfy`):
  - the three tables as rows in rowid order, and the store as a value `Db`;
  - the queries the handlers run (`FindClass`, `Count`, `HasBooking`, `FindUser`);
  - the invariant the handlers keep, `Inv`:
    - ids are rowids;
    - capacities are positive;
    - every booking names an existing class;
    - stored emails are lower case;
    - capacity: a class never holds more bookings than its capacity;
    - no duplicate pair: at most one booking per (class, lower-cased email);
    - user emails are unique.
- `Schemas` (`schemas.dfy`, the request models of `schemas.py`): the field constraints of `UserCreate` and `BookIn`. They are validators that return `Option`.
- `Seed` (`seed.dfy`, after `seed.py`): `seed_data` as a function of the store and of the local midnight of the day it runs. It also models `ist_to_utc`.
- `Handlers` (`handlers.dfy`): each handler of `main.py` as a function from the store before the request to the answer and the store after it (`Outcome`), plus the lemmas about them.
- `App` (`store.dfy`): the class `Store` with the three tables as fields.
  - Its methods `SeedData`, `CreateUser`, `BookClass`, `GetClasses` and `GetBookings` follow the source step by step: the queries, the add/commit/rollback, and the loops that build the response lists.
  - Each method is proved to answer and to leave the store exactly as the matching function says.
  - Each method keeps `Valid()`, the invariant of the store.

## Model

| member | source | states |
|---|---|---|
| Text.Lower | main.py:105 | the lowered email has the same length and no upper-case ASCII letter; each `A`..`Z` becomes its lower-case letter (32 code points up) and every other character is kept |
| Text.LowerEqIff | main.py:21 | two emails lower to the same string exactly when they agree position by position up to the case of ASCII letters |
| Text.LowerIdempotent | main.py:21 | lowering a stored (lowered) email again gives it back, so comparisons are case-insensitive |
| Text.Strip | main.py:104 | the stripped name is no longer than the input and has no whitespace at either end |
| Text.StripSlice | main.py:104 | the stripped name is a middle slice of the input, and everything cut on either side is whitespace |
| Text.StripAllSpace | main.py:104 | a name made only of whitespace strips to the empty string |
| Text.StripIdempotent | schemas.py:5 | stripping an already stripped name changes nothing |
| Ordering.Insert | main.py:58 | inserting a row keeps every row and adds exactly the new one (multiset) |
| Ordering.InsertSorted | main.py:58 | inserting into a sorted table keeps it sorted |
| Ordering.SortBy | main.py:58 | ordering rows by start time is a permutation of the rows |
| Ordering.SortBySorted | main.py:58 | the ordered rows are sorted by start time |
| Ordering.SortByLength | main.py:58 | ordering keeps the number of rows |
| Ordering.SortBySortedIsIdentity | main.py:58 | rows already in start order come back in table order (ties keep table order) |
| Ordering.InsertAtEnd | main.py:58 | a row whose key is not smaller than any other goes last |
| Models.FindClass | main.py:84-86 | a found class is in the table with the requested id; nothing is found exactly when no class has that id |
| Models.Count | main.py:89 | the booking count is at most the number of bookings, and 0 when no booking names the class |
| Models.CountAppend | main.py:108 | adding a booking raises the count of its class by one and no other count |
| Models.HasBooking | main.py:94-97 | a booking is found exactly when some booking has both the class and the email |
| Models.FindUser | main.py:21 | a found user is in the table with the email; nothing is found exactly when no user has it |
| Models.EmptyInv | main.py:16 | a new, empty database satisfies the invariant |
| Models.CountOfMissingClass | main.py:89 | when every booking names an existing class, a missing class has no bookings |
| Models.FindClassKeyed | main.py:84 | with rowid ids, looking a class up by id is taking the row at id - 1 |
| Schemas.ValidateUserCreate | schemas.py:4-7 | a user request is accepted exactly when the stripped name is non-empty, the email is an email and the password has at least 6 characters; the accepted name is the stripped one |
| Schemas.ValidateBookIn | schemas.py:18-21 | a booking request is accepted exactly when class_id > 0, the name has 1..120 characters as sent, and the email is an email |
| Schemas.UserNameNormalised | schemas.py:5 | an accepted user name is non-empty and has no whitespace at either end |
| Schemas.ValidateUserCreateIdempotent | schemas.py:5 | validating an accepted user again accepts it unchanged |
| Schemas.BlankUserNameRejected | schemas.py:5 | a user name made only of whitespace is rejected |
| Schemas.BlankClientNameAccepted | schemas.py:20 | a booking name made only of whitespace, 1..120 characters long, is accepted and strips to the empty string |
| Seed.IstToUtc | utils.py:11-15 | the UTC instant plus 05:30 is the IST wall-clock instant |
| Seed.Seed | seed.py:6-26 | with a class present nothing changes; bookings and users never change; afterwards at least one class exists |
| Seed.SeedPopulates | seed.py:11-25 | on an empty table exactly four classes are added with the tuple's name, instructor and capacity, in list order, ids 1..4, capacities 3, 4, 2, 2 |
| Seed.SeedIdempotent | seed.py:7-8 | seeding twice leaves the same store as seeding once |
| Seed.SeededInStartOrder | seed.py:11-16 | the seeded classes are in start order |
| Seed.SeedPreservesInv | seed.py:6-26 | seeding keeps the invariant (positive capacities, fresh rowids, no orphan bookings) |
| Handlers.EnsureTzName | utils.py:4-9 | a known zone name is kept, any other becomes Asia/Kolkata |
| Handlers.Register | main.py:18-33 | the email is taken exactly when a user has its lower-case form, and then nothing changes; otherwise one user is appended with the lowered email and the next id |
| Handlers.RegisterPreservesInv | main.py:21-31 | registration keeps user emails unique and lower case, and ids rowids |
| Handlers.RegisterTwiceRejected | main.py:21-23 | registering the same address again, in any case, is refused |
| Handlers.Admit | main.py:76-143 | every refusal leaves the store unchanged; a confirmation appends exactly the booking with the next id, the class id, the stripped name, the lowered email and the request time |
| Handlers.AdmitDecision | main.py:84-113 | not found iff no class has the id; no slots iff the class is full; duplicate iff room and a booking for (class, lowered email) exists; conflict iff neither and the commit is rejected; confirmation otherwise, showing the class in UTC |
| Handlers.FullClassReportsNoSlots | main.py:89-99 | a full class answers no slots even when the email already booked it |
| Handlers.AdmitCounts | main.py:89-113 | only the booked class's count grows, by one, and only on confirmation |
| Handlers.AdmitPreservesInv | main.py:89-113 | booking keeps the invariant, in particular the capacity invariant and the no-duplicate-pair invariant |
| Handlers.AppendKeepsCapacity | main.py:89-91 | adding a booking to a class with a free slot keeps the capacity invariant |
| Handlers.AppendKeepsNoDuplicates | main.py:94-99 | adding a booking whose (class, email) pair is new keeps the no-duplicate-pair invariant |
| Handlers.AppendKeepsReferences | main.py:102-108 | the added row names an existing class, has a lower-case email and the next rowid |
| Handlers.RebookIsDuplicate | main.py:94-99 | booking the same class again with the same email in any case, while it has room, is a duplicate and changes nothing |
| Handlers.AdmitAll | main.py:76-143 | a run of bookings answers each request once |
| Handlers.AdmitFresh | main.py:89-108 | a new email for an existing class is confirmed exactly when the class has room and refused with no slots otherwise; the count grows by one on confirmation |
| Handlers.FreshTail | main.py:94-99 | after one request of a run with distinct new emails, the rest are still new |
| Handlers.HasBookingAppend | main.py:94-97 | after adding a booking, the duplicate check finds exactly the old pairs plus the new one |
| Handlers.FillClass | main.py:89-108 | for requests with distinct new emails, the first (capacity - booked) are confirmed and the rest are refused with no slots |
| Handlers.AdmitAllCount | main.py:89-108 | after a run of requests for one class, its count is the old count plus the confirmations |
| Handlers.FillsUpConfirmed | main.py:89-91 | a run of answers that fills `free` slots holds min(free, answers) confirmations |
| Handlers.FillClassCount | main.py:89-108 | a run of distinct new emails for a class leaves min(free slots, requests) more bookings of it; with capacity 4, no bookings and ten new emails, four bookings are stored |
| Handlers.ClassListing | main.py:51-73 | `get_classes` as a function of the store: one entry per class; `ClassListingSpec` and `AvailableSlotsInRange` state its order, contents and free-slot bounds |
| Handlers.ClassListingSpec | main.py:51-73 | one entry per class and nothing else, ordered by start time, each with capacity - (bookings of the class) free slots and the echoed zone |
| Handlers.ListingInTableOrder | main.py:58 | classes already stored in start order are listed in table order |
| Handlers.AvailableSlotsInRange | main.py:62-63 | while the capacity invariant holds, free slots lie between 0 and the capacity |
| Handlers.Joined | main.py:154-157 | the join yields only bookings under the email, each with its own class, and yields every such booking whose class exists |
| Handlers.BookingListing | main.py:146-175 | `get_bookings` as a function of the store: every entry carries the lowered email; `BookingListingOrdered`, `BookingListingSound`, `BookingListingComplete` and `BookingListingLength` state its order and that it lists exactly the stored bookings under that email |
| Handlers.BookingListingOrdered | main.py:158 | the booking listing is ordered by class start |
| Handlers.BookingListingSound | main.py:154-160 | every listed entry is a booking stored under the lowered email, shown with its class |
| Handlers.BookingListingComplete | main.py:154-160 | every booking stored under the lowered email is listed |
| Handlers.CountEmail | main.py:154-157 | the number of bookings stored under an email is at most the number of bookings, and 0 when none is under it |
| Handlers.JoinedLength | main.py:154-157 | when every booking names an existing class, the join has one row per booking stored under the email |
| Handlers.BookingListingLength | main.py:146-175 | the listing has exactly as many entries as bookings stored under the lowered email, so with soundness and completeness each is listed once |
| Handlers.BookedIsListed | main.py:146-175 | a confirmed booking appears in its booker's listing under any case of the email |
| App.Store.constructor | main.py:16 | a new database has three empty tables and is valid |
| App.Store.SeedData | seed.py:6-26 | the guard, the loop adding each tuple and the single commit leave the store that `Seed.Seed` describes, and keep the invariant |
| App.Store.CreateUser | main.py:18-33 | the lookup and the add/commit answer and leave the store as `Handlers.Register` says, and keep the invariant |
| App.Store.BookClass | main.py:76-113 | the four checks, the add and the commit or rollback answer and leave the store as `Handlers.Admit` says, and keep the invariant |
| App.Store.GetClasses | main.py:51-73 | the loop over the ordered classes returns exactly `Handlers.ClassListing`; on a valid store every entry's free slots lie between 0 and its capacity |
| App.Store.GetBookings | main.py:146-175 | the loop over the ordered joined rows returns exactly `Handlers.BookingListing`; on a valid store it has one entry per booking stored under the lowered email |
| App.SeededListing | seed.py:11-25 | on a new database, `/classes` lists the four seed classes in list order, ids 1..4, every slot free |

## Behaviour worth knowing

The model follows the code in each of these cases:

- A commit the store rejects (`IntegrityError`, main.py:109-113) gets its own answer, `Conflict` ("Booking conflict (duplicate)"). It is not folded into the duplicate answer. Since the `bookings` table declares no unique constraint (models.py:28-37), the commit verdict is a free parameter, `commitRejected`.
- The handlers only lower-case the booking and user emails (main.py:21, main.py:96 and main.py:105). Removing surrounding spaces is left to the `EmailStr` field type (schemas.py:6 and schemas.py:21), which normalises the address before a handler runs.
- The booking name is length-checked before it is stripped (schemas.py:20). A name made only of whitespace is accepted and stored empty (`Schemas.BlankClientNameAccepted`).
- The start times in both listings are the stored UTC instants. The requested zone name is only echoed after `ensure_tz_name`. A confirmation always reports "UTC".
- The count-then-insert sequence is not isolated against concurrent requests (main.py:89-110). The capacity invariant holds only for the sequential handling the model describes.

## Left out

- Concurrency: two requests that both pass the capacity or duplicate check before either commits are not modelled. Handlers run one at a time. The only trace of a concurrent writer is the `commitRejected` verdict.
- Email notification (main.py:116-131, `emailer.py`): it is scheduled after the commit and has no effect on the store or on the answer. `utc_iso_to_tz` is used only there.
- Database wiring (`database.py`), session open and close, the start-up hook's logging (main.py:35-43), and `/health` (main.py:45-48).
- Clocks: `datetime.utcnow()` and `datetime.now()` become the parameters `now` and `today`. Instants are integer seconds.
- Response formatting: the `isoformat() + "Z"` strings become the instants themselves.
- The zone database: `pytz.timezone` becomes membership in the parameter `known`. `ist_to_utc` is the fixed offset 05:30, which is what `localize` gives for Asia/Kolkata at current dates.
- `EmailStr`: its syntax check is the parameter `isEmail`. Its normalisation is not modelled: the model keeps the address as received (then lowered), where the program keeps pydantic's form with surrounding spaces removed.
- Text.Lower: lowers ASCII letters only, while Python's `str.lower()` also lowers other Unicode letters.
- HTTP status codes: they are not modelled. The results `ClassNotFound`, `NoSlots`, `Duplicate`, `Conflict` and `EmailTaken` stand for the 404 and 409 responses.
- Request validation failures (422) happen before a handler runs. They are the `None` results of the validators.
- A failing `users` commit (the unique email index, main.py:31) is not modelled. It cannot fire in a sequential model, because the handler checked the address just before.
- Ordering.SortBy: `ORDER BY date_time` leaves ties in an unspecified order. The model keeps table order for ties.
- Integer widths: ids, counts and instants are unbounded. 64-bit overflow is not modelled.
- App.Store.SeedData, App.Store.CreateUser, App.Store.BookClass: these state `old(Valid()) ==> Valid()` rather than requiring `Valid()`, because the source demands nothing of the store before a request.
