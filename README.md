# Appointment slot availability

A model of the slot-availability computation of the clinic backend's
`GET /appointmentOptions?date=<date>` route. The route loads the whole
catalog of appointment options (a treatment `name`, a `price` and a template
list of time-label `slots`) and the bookings of the requested date (each
holds a `treatment` and a `slot`). It then walks the catalog and, for each
option, overwrites the option's `slots` with the template slots that no
booking of that treatment holds, keeping their order. The updated catalog is
the answer.

- `availability.dfy`, module `Availability`: the documents as datatypes. It
  holds the pure steps as functions: the date query `BookingsOn`, the
  treatment filter `BookedFor`, the slot projection `SlotsOf` and the slot
  filter `Remaining`. `ResolveOption`, `Resolve` and `AvailableOn` compose
  them. The lemmas state what the route promises about its answer.
- `routes.dfy`, module `Routes`: the route handler as a method. It runs over
  an array of option documents and overwrites each cell's `slots` in place,
  one option per loop iteration. It is proved to leave exactly
  `AvailableOn(old catalog, bookings, date)` in the array.

`Booked(bookings, name, s)` is the reference notion used by the lemmas: some
booking of treatment `name` holds slot `s`. `IsSubsequence(xs, ys)` says that
`xs` is `ys` with some elements deleted and the order of the rest kept.

The `POST /bookings` route in `index.js` stores the request body unchecked:
there is no duplicate-booking guard, and none is modelled. The
`/appointmentOptions` handler overwrites the fetched option documents in
place rather than building new ones, and the model does the same on an array.

## Model

| member | source | states |
|---|---|---|
| `Availability.BookingsOn` | index.js:33-34 | a booking is among the date's bookings exactly when it is stored and its `appointmentDate` equals the requested date |
| `Availability.BookedFor` | index.js:37 | a booking is selected for an option exactly when its `treatment` equals the option's `name` (exact string equality) |
| `Availability.SlotsOf` | index.js:38 | one slot per booking, and a value is among them exactly when some booking holds it |
| `Availability.BookedSlots` | index.js:37-38 | a value is among an option's booked slots exactly when a booking of that treatment holds it |
| `Availability.Remaining` | index.js:39 | a slot remains exactly when it is in the template and not booked; every occurrence of a booked value is dropped and every occurrence of a free value is kept |
| `Availability.RemainingIsSubsequence` | index.js:39 | the remaining slots are the template with elements deleted, in template order |
| `Availability.RemainingUnique` | index.js:39 | the filter's result is the only subsequence of the template that drops every booked occurrence and keeps every free one |
| `Availability.RemainingIdempotent` | index.js:39 | filtering a second time with the same booked slots changes nothing |
| `Availability.RemainingSameBooked` | index.js:38-39 | the filter depends on the booked slots only through which values they contain, not their order or repetition |
| `Availability.RemainingNothingBooked` | index.js:39 | a template none of whose values is booked is returned unchanged |
| `Availability.ResolvedSlotsAreFree` | index.js:37-40 | after the update, a slot is offered for an option exactly when it is a template slot that no booking of the option's treatment holds (subset, no booked slot kept, no free slot lost) |
| `Availability.ResolvedOccurrences` | index.js:39-40 | a template value that occurs several times and is booked loses every occurrence; a free value keeps all of them |
| `Availability.ResolvedInOrder` | index.js:39-40 | the option keeps its `name` and `price`, and its new slots are a subsequence of the template |
| `Availability.ResolveOptionSameBooked` | index.js:37-39 | two booking lists that book the same slots for the option's treatment give the same option |
| `Availability.OtherTreatmentIgnored` | index.js:37 | inserting a booking of another treatment anywhere in the list does not change the option |
| `Availability.ResolveOptionIdempotent` | index.js:37-40 | updating an already updated option with the same bookings changes nothing |
| `Availability.ResolveKeepsCatalog` | index.js:35-41 | no option is dropped or reordered; each keeps its name and price, and its slots are exactly its free template slots, with every occurrence of each, in template order |
| `Availability.ResolveNoBookings` | index.js:35-41 | with no bookings the catalog is returned unchanged |
| `Availability.ResolveIdempotent` | index.js:35-41 | running the update a second time with the same bookings changes nothing |
| `Availability.UnmatchedBookingIgnored` | index.js:35-41 | a booking whose treatment names no option in the catalog has no effect |
| `Availability.AvailableSlotsNotHeld` | index.js:33-41 | for the requested date, a slot is offered for an option exactly when it is a template slot that no booking of that date and treatment holds |
| `Availability.OtherDateIgnored` | index.js:33-41 | a booking of another date has no effect on the answer for the requested date |
| `Availability.CheckupExample` | index.js:29-42 | "Checkup" with slots 9am and 10am, with 9am booked on the date, offers only 10am |
| `Routes.AppointmentOptions` | index.js:29-42 | the in-place loop over the fetched catalog leaves in the array exactly the availability of the requested date, computed from the original catalog |

## Left out

- HTTP plumbing: routing, CORS, JSON body parsing, the liveness route, `app.listen` and sending the answer (index.js:1-11, 42, 56-62).
- The database client, its connection string and environment configuration (index.js:3-5, 13-26). The two `find(...).toArray()` reads become inputs: the catalog array and the sequence of all stored bookings. The date query becomes the explicit filter `BookingsOn`.
- `POST /bookings` (index.js:45-49): it inserts the request body unchecked, so there is nothing to state beyond the store's own behaviour. There is no duplicate-booking guard in this code, and none is modelled.
- Asynchronous scheduling and concurrency between availability reads and booking writes: the code has no coordination between them to reason about.
- A request without a `date` parameter: the date is modelled as a string, so how the database matches a missing date value is not represented.
- An option document without a `slots` array: `option.slots.filter` at index.js:39 then throws, the handler's promise rejects and no answer is sent. The model gives every option a `slots` sequence, so this failure is not represented.
- A `date` query parameter that is not a plain string: Express's extended query parser turns `?date[$ne]=x` into an object and `?date=a&date=b` into an array, and index.js:33-34 hands either to the database as a query operator or array match, selecting bookings of other dates. The model's date is a string compared by equality.
- A booking whose `appointmentDate` is an array: the database's equality at index.js:33 also matches an array that contains the date. The model's `appointmentDate` is a single string.
- Documents whose `name`, `treatment` or `slot` are not strings. Document fields other than those in the datatypes, such as `_id`, are not modelled. A booking's `email` and `patientName` are carried as data only.
- Object identity: the fetched catalog documents are distinct objects, each referenced once by the array. The model stores option values in the array cells, so aliasing between cells is not represented.
