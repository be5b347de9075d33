/**
  The `/appointmentOptions` route: the catalog fetched from the database is
  updated in place, one option at a time, and sent back as the answer.
 */
module Routes {
  import opened Availability

  /**
    Answers `GET /appointmentOptions?date=<date>`. `options` holds the catalog
    documents as fetched and `bookingsCollection` every stored booking; on
    return `options` holds the answer.
   */
  method AppointmentOptions(options: array<AppointmentOption>, bookingsCollection: seq<Booking>, date: string)
    modifies options
    ensures options[..] == AvailableOn(old(options[..]), bookingsCollection, date)
  {
    ghost var fetched := options[..];
    var alreadyBooked := BookingsOn(bookingsCollection, date);
    var i := 0;
    while i < options.Length
      invariant 0 <= i <= options.Length
      invariant options[..i] == Resolve(fetched[..i], alreadyBooked)
      invariant options[i..] == fetched[i..]
    {
      var option := options[i];
      var optionBooked := BookedFor(alreadyBooked, option.name);
      var bookedSlots := SlotsOf(optionBooked);
      var remainingSlots := Remaining(option.slots, bookedSlots);
      options[i] := option.(slots := remainingSlots);
      assert options[..i + 1] == options[..i] + [options[i]];
      assert fetched[..i + 1] == fetched[..i] + [fetched[i]];
      i := i + 1;
    }
    assert options[..] == options[..i];
    assert fetched == fetched[..i];
  }
}
