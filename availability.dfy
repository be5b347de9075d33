/**
  Slot availability for the clinic's appointment catalog.

  An appointment option is a treatment with a template list of time-label
  slots; a booking reserves one slot of one treatment on one date. The
  availability of a date is the catalog with, for every option, the slots
  already booked for that option's treatment taken out of its template,
  keeping the template's order.
 */
module Availability {

  /** One document of the appointment-option collection. */
  datatype AppointmentOption = AppointmentOption(name: string, price: real, slots: seq<string>)

  /** One document of the bookings collection. */
  datatype Booking = Booking(
    appointmentDate: string,
    email: string,
    patientName: string,
    treatment: string,
    slot: string)

  /** `xs` can be obtained from `ys` by deleting elements, keeping the order of the rest. */
  ghost predicate IsSubsequence<T>(xs: seq<T>, ys: seq<T>)
    decreases |ys|
  {
    xs == [] ||
    (ys != [] &&
     ((xs[0] == ys[0] && IsSubsequence(xs[1..], ys[1..])) || IsSubsequence(xs, ys[1..])))
  }

  /** Slot `s` of treatment `name` is held by one of `bookings`. */
  ghost predicate Booked(bookings: seq<Booking>, name: string, s: string)
  {
    exists b :: b in bookings && b.treatment == name && b.slot == s
  }

  // ---------------------------------------------------------------------------
  // The steps of the handler
  // ---------------------------------------------------------------------------

  /** The bookings of one date: the query the handler sends to the bookings collection. */
  function BookingsOn(bookings: seq<Booking>, date: string): (r: seq<Booking>)
    ensures forall b :: b in r <==> b in bookings && b.appointmentDate == date
  {
    if bookings == [] then []
    else if bookings[0].appointmentDate == date then [bookings[0]] + BookingsOn(bookings[1..], date)
    else BookingsOn(bookings[1..], date)
  }

  /** The bookings whose treatment is exactly `name` (case-sensitive string equality). */
  function BookedFor(bookings: seq<Booking>, name: string): (r: seq<Booking>)
    ensures forall b :: b in r <==> b in bookings && b.treatment == name
  {
    if bookings == [] then []
    else if bookings[0].treatment == name then [bookings[0]] + BookedFor(bookings[1..], name)
    else BookedFor(bookings[1..], name)
  }

  /** The slot of every booking, in order. */
  function SlotsOf(bookings: seq<Booking>): (r: seq<string>)
    ensures |r| == |bookings|
    ensures forall s :: s in r <==> exists b :: b in bookings && b.slot == s
  {
    if bookings == [] then []
    else
      assert forall b :: b in bookings <==> b == bookings[0] || b in bookings[1..];
      [bookings[0].slot] + SlotsOf(bookings[1..])
  }

  /** The template `slots` without any value that occurs in `booked`, in template order. */
  function Remaining(slots: seq<string>, booked: seq<string>): (r: seq<string>)
    ensures forall s :: s in r <==> s in slots && s !in booked
    ensures forall s :: multiset(r)[s] == if s in booked then 0 else multiset(slots)[s]
  {
    if slots == [] then []
    else
      assert slots == [slots[0]] + slots[1..];
      if slots[0] in booked then Remaining(slots[1..], booked)
      else [slots[0]] + Remaining(slots[1..], booked)
  }

  /** The slots held by the bookings of treatment `name`. */
  function BookedSlots(alreadyBooked: seq<Booking>, name: string): (r: seq<string>)
    ensures forall s :: s in r <==> Booked(alreadyBooked, name, s)
  {
    var optionBooked := BookedFor(alreadyBooked, name);
    SlotsOf(optionBooked)
  }

  /** One pass of the handler's loop body: the option with its booked slots removed. */
  function ResolveOption(option: AppointmentOption, alreadyBooked: seq<Booking>): AppointmentOption
  {
    option.(slots := Remaining(option.slots, BookedSlots(alreadyBooked, option.name)))
  }

  /** Every option of the catalog resolved against the same bookings. */
  function Resolve(options: seq<AppointmentOption>, alreadyBooked: seq<Booking>): seq<AppointmentOption>
  {
    seq(|options|, i requires 0 <= i < |options| => ResolveOption(options[i], alreadyBooked))
  }

  /** The availability the handler answers for `date`. */
  function AvailableOn(options: seq<AppointmentOption>, bookings: seq<Booking>, date: string): seq<AppointmentOption>
  {
    Resolve(options, BookingsOn(bookings, date))
  }

  // ---------------------------------------------------------------------------
  // The slot filter
  // ---------------------------------------------------------------------------

  lemma {:induction false} SubsequenceCounts<T>(xs: seq<T>, ys: seq<T>)
    requires IsSubsequence(xs, ys)
    ensures multiset(xs) <= multiset(ys)
    decreases |ys|
  {
    if xs == [] {
    } else {
      assert ys == [ys[0]] + ys[1..];
      if xs[0] == ys[0] && IsSubsequence(xs[1..], ys[1..]) {
        SubsequenceCounts(xs[1..], ys[1..]);
        assert xs == [xs[0]] + xs[1..];
      } else {
        SubsequenceCounts(xs, ys[1..]);
      }
    }
  }

  /** The filter keeps the template's relative order. */
  lemma {:induction false} RemainingIsSubsequence(slots: seq<string>, booked: seq<string>)
    ensures IsSubsequence(Remaining(slots, booked), slots)
    decreases |slots|
  {
    if slots != [] {
      RemainingIsSubsequence(slots[1..], booked);
      var rest := Remaining(slots[1..], booked);
      if slots[0] in booked {
        if rest != [] {
          assert rest[0] in rest;
          assert rest[0] != slots[0];
        }
      } else {
        assert ([slots[0]] + rest)[1..] == rest;
      }
    }
  }

  /**
    The filter's result is the only subsequence of the template that holds
    no booked value and every occurrence of every other value.
   */
  lemma {:induction false} RemainingUnique(slots: seq<string>, booked: seq<string>, r: seq<string>)
    requires IsSubsequence(r, slots)
    requires forall s :: multiset(r)[s] == if s in booked then 0 else multiset(slots)[s]
    ensures r == Remaining(slots, booked)
    decreases |slots|
  {
    if slots != [] {
      var x, rest := slots[0], slots[1..];
      assert slots == [x] + rest;
      if r != [] {
        assert r == [r[0]] + r[1..];
      }
      if x in booked {
        RemainingUnique(rest, booked, r);
      } else if r != [] && r[0] == x && IsSubsequence(r[1..], rest) {
        RemainingUnique(rest, booked, r[1..]);
      } else {
        SubsequenceCounts(r, rest);
        assert false;
      }
    }
  }

  lemma {:induction false} SubsequenceReflexive<T>(xs: seq<T>)
    ensures IsSubsequence(xs, xs)
    decreases |xs|
  {
    if xs != [] {
      SubsequenceReflexive(xs[1..]);
    }
  }

  /** Filtering a second time with the same booked slots changes nothing. */
  lemma {:induction false} RemainingIdempotent(slots: seq<string>, booked: seq<string>)
    ensures Remaining(Remaining(slots, booked), booked) == Remaining(slots, booked)
  {
    var once := Remaining(slots, booked);
    SubsequenceReflexive(once);
    RemainingUnique(once, booked, once);
  }

  /** The filter depends on the booked slots only through which values they contain. */
  lemma {:induction false} RemainingSameBooked(slots: seq<string>, booked1: seq<string>, booked2: seq<string>)
    requires forall s :: s in booked1 <==> s in booked2
    ensures Remaining(slots, booked1) == Remaining(slots, booked2)
  {
    RemainingIsSubsequence(slots, booked1);
    RemainingUnique(slots, booked2, Remaining(slots, booked1));
  }

  /** A template none of whose values is booked comes back unchanged. */
  lemma {:induction false} RemainingNothingBooked(slots: seq<string>, booked: seq<string>)
    requires forall s :: s in slots ==> s !in booked
    ensures Remaining(slots, booked) == slots
  {
    SubsequenceReflexive(slots);
    forall s ensures multiset(slots)[s] == if s in booked then 0 else multiset(slots)[s] {
      if s in booked {
        assert s !in slots;
      }
    }
    RemainingUnique(slots, booked, slots);
  }

  // ---------------------------------------------------------------------------
  // One option
  // ---------------------------------------------------------------------------

  /**
    A slot remains for an option exactly when it is in the option's template
    and no booking of the option's treatment holds it: every remaining slot
    is a template slot, no booked slot remains, and no free slot is lost.
   */
  lemma ResolvedSlotsAreFree(option: AppointmentOption, alreadyBooked: seq<Booking>)
    ensures var r := ResolveOption(option, alreadyBooked);
      forall s :: s in r.slots <==> s in option.slots && !Booked(alreadyBooked, option.name, s)
  {
  }

  /**
    Every occurrence of a booked value is removed, and every occurrence of a
    free value is kept.
   */
  lemma ResolvedOccurrences(option: AppointmentOption, alreadyBooked: seq<Booking>)
    ensures var r := ResolveOption(option, alreadyBooked);
      forall s :: multiset(r.slots)[s] ==
        if Booked(alreadyBooked, option.name, s) then 0 else multiset(option.slots)[s]
  {
  }

  /** The remaining slots keep their template order, and nothing but the slots changes. */
  lemma ResolvedInOrder(option: AppointmentOption, alreadyBooked: seq<Booking>)
    ensures var r := ResolveOption(option, alreadyBooked);
      r.name == option.name && r.price == option.price && IsSubsequence(r.slots, option.slots)
  {
    RemainingIsSubsequence(option.slots, BookedSlots(alreadyBooked, option.name));
  }

  /** Only the bookings of the option's treatment, through the slots they hold, decide the result. */
  lemma {:induction false} ResolveOptionSameBooked(option: AppointmentOption, bookings1: seq<Booking>, bookings2: seq<Booking>)
    requires forall s :: Booked(bookings1, option.name, s) <==> Booked(bookings2, option.name, s)
    ensures ResolveOption(option, bookings1) == ResolveOption(option, bookings2)
  {
    RemainingSameBooked(option.slots, BookedSlots(bookings1, option.name), BookedSlots(bookings2, option.name));
  }

  /** A booking of another treatment has no effect on an option. */
  lemma {:induction false} OtherTreatmentIgnored(option: AppointmentOption, before: seq<Booking>, b: Booking, after: seq<Booking>)
    requires b.treatment != option.name
    ensures ResolveOption(option, before + [b] + after) == ResolveOption(option, before + after)
  {
    forall s ensures Booked(before + [b] + after, option.name, s) <==> Booked(before + after, option.name, s) {
      if Booked(before + [b] + after, option.name, s) {
        var c :| c in before + [b] + after && c.treatment == option.name && c.slot == s;
        assert c in before + after;
      }
      if Booked(before + after, option.name, s) {
        var c :| c in before + after && c.treatment == option.name && c.slot == s;
        assert c in before + [b] + after;
      }
    }
    ResolveOptionSameBooked(option, before + [b] + after, before + after);
  }

  /** Resolving an option twice with the same bookings changes nothing. */
  lemma ResolveOptionIdempotent(option: AppointmentOption, alreadyBooked: seq<Booking>)
    ensures ResolveOption(ResolveOption(option, alreadyBooked), alreadyBooked) == ResolveOption(option, alreadyBooked)
  {
    RemainingIdempotent(option.slots, BookedSlots(alreadyBooked, option.name));
  }

  // ---------------------------------------------------------------------------
  // The whole catalog
  // ---------------------------------------------------------------------------

  /**
    No option is dropped or reordered; each keeps its name and price, and its
    slots become exactly its free template slots, every occurrence of each,
    in template order.
   */
  lemma ResolveKeepsCatalog(options: seq<AppointmentOption>, alreadyBooked: seq<Booking>)
    ensures var r := Resolve(options, alreadyBooked);
      |r| == |options| &&
      forall i :: 0 <= i < |options| ==>
        r[i].name == options[i].name && r[i].price == options[i].price &&
        IsSubsequence(r[i].slots, options[i].slots) &&
        (forall s :: s in r[i].slots <==> s in options[i].slots && !Booked(alreadyBooked, options[i].name, s)) &&
        forall s ::
          multiset(r[i].slots)[s] == if Booked(alreadyBooked, options[i].name, s) then 0 else multiset(options[i].slots)[s]
  {
    var r := Resolve(options, alreadyBooked);
    forall i | 0 <= i < |options|
      ensures r[i].name == options[i].name && r[i].price == options[i].price
      ensures IsSubsequence(r[i].slots, options[i].slots)
      ensures forall s :: s in r[i].slots <==> s in options[i].slots && !Booked(alreadyBooked, options[i].name, s)
      ensures forall s ::
        multiset(r[i].slots)[s] == if Booked(alreadyBooked, options[i].name, s) then 0 else multiset(options[i].slots)[s]
    {
      ResolvedInOrder(options[i], alreadyBooked);
      ResolvedSlotsAreFree(options[i], alreadyBooked);
      ResolvedOccurrences(options[i], alreadyBooked);
    }
  }

  /** With no bookings the catalog comes back unchanged. */
  lemma ResolveNoBookings(options: seq<AppointmentOption>)
    ensures Resolve(options, []) == options
  {
    forall i | 0 <= i < |options| ensures Resolve(options, [])[i] == options[i] {
      RemainingNothingBooked(options[i].slots, []);
    }
  }

  /** Resolving the resolved catalog again with the same bookings changes nothing. */
  lemma ResolveIdempotent(options: seq<AppointmentOption>, alreadyBooked: seq<Booking>)
    ensures Resolve(Resolve(options, alreadyBooked), alreadyBooked) == Resolve(options, alreadyBooked)
  {
    forall i | 0 <= i < |options|
      ensures Resolve(Resolve(options, alreadyBooked), alreadyBooked)[i] == Resolve(options, alreadyBooked)[i]
    {
      ResolveOptionIdempotent(options[i], alreadyBooked);
    }
  }

  /** A booking whose treatment names no option of the catalog is ignored. */
  lemma UnmatchedBookingIgnored(options: seq<AppointmentOption>, before: seq<Booking>, b: Booking, after: seq<Booking>)
    requires forall o :: o in options ==> o.name != b.treatment
    ensures Resolve(options, before + [b] + after) == Resolve(options, before + after)
  {
    forall i | 0 <= i < |options|
      ensures Resolve(options, before + [b] + after)[i] == Resolve(options, before + after)[i]
    {
      assert options[i] in options;
      OtherTreatmentIgnored(options[i], before, b, after);
    }
  }

  // ---------------------------------------------------------------------------
  // One date
  // ---------------------------------------------------------------------------

  /**
    A slot the handler offers for (date, treatment) is a template slot that no
    booking of that date and treatment holds, and every such slot is offered.
   */
  lemma AvailableSlotsNotHeld(options: seq<AppointmentOption>, bookings: seq<Booking>, date: string)
    ensures var r := AvailableOn(options, bookings, date);
      |r| == |options| &&
      forall i, s :: 0 <= i < |options| ==>
        (s in r[i].slots <==>
          s in options[i].slots &&
          !exists b :: b in bookings && b.appointmentDate == date && b.treatment == options[i].name && b.slot == s)
  {
    var onDate := BookingsOn(bookings, date);
    ResolveKeepsCatalog(options, onDate);
  }

  /** A booking of another date has no effect on the availability of `date`. */
  lemma OtherDateIgnored(options: seq<AppointmentOption>, before: seq<Booking>, b: Booking, after: seq<Booking>, date: string)
    requires b.appointmentDate != date
    ensures AvailableOn(options, before + [b] + after, date) == AvailableOn(options, before + after, date)
  {
    var with, without := BookingsOn(before + [b] + after, date), BookingsOn(before + after, date);
    forall i | 0 <= i < |options|
      ensures Resolve(options, with)[i] == Resolve(options, without)[i]
    {
      ResolveOptionSameBooked(options[i], with, without);
    }
  }

  /** The catalog entry "Checkup" with 9am and 10am, and 9am booked on the date: 10am is left. */
  lemma CheckupExample()
    ensures AvailableOn([AppointmentOption("Checkup", 0.0, ["9am", "10am"])],
                        [Booking("2024-01-05", "a@x.com", "A", "Checkup", "9am")],
                        "2024-01-05")
            == [AppointmentOption("Checkup", 0.0, ["10am"])]
  {
    var b := Booking("2024-01-05", "a@x.com", "A", "Checkup", "9am");
    assert BookingsOn([b], "2024-01-05") == [b];
    assert BookedFor([b], "Checkup") == [b];
    assert SlotsOf([b]) == ["9am"];
    assert BookedSlots([b], "Checkup") == ["9am"];
    assert "10am" != "9am";
    assert Remaining(["10am"], ["9am"]) == ["10am"];
    assert Remaining(["9am", "10am"], ["9am"]) == ["10am"];
  }
}
