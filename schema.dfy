/**
 * The records of the lodge's database: bookings, per-date availability and
 * the single global settings record, with the errors the server mutations
 * throw. Optional fields are Options; numbers are integers.
 */
module Schema {
  import opened Wrappers

  /** The six workflow states of a booking request. */
  datatype BookingStatus =
    | Pending
    | Approved
    | Rejected
    | PaymentRequested
    | PaymentReceived
    | Confirmed

  /** Who asks for the booking: a bungalow owner or a registered user. */
  datatype UserType = Owner | Registered

  /** The literal stored for a user type ("owner" or "registered"). */
  function UserTypeName(u: UserType): (s: string)
    ensures s == "owner" || s == "registered"
  {
    match u
    case Owner => "owner"
    case Registered => "registered"
  }

  /** A row of the bookings table; check-in and check-out are YYYY-MM-DD strings. */
  datatype Booking = Booking(
    userId: string,
    userEmail: Option<string>,
    userName: Option<string>,
    bungalowNumber: Option<string>,
    userType: Option<UserType>,
    checkIn: string,
    checkOut: string,
    guests: Option<int>,
    status: BookingStatus,
    notes: Option<string>,
    createdAt: int,
    stayCompletedAt: Option<int>,
    paymentRequestedAt: Option<int>,
    paymentReceivedAt: Option<int>,
    confirmedAt: Option<int>)

  /** The season override a date may carry. */
  datatype Season = Peak | OffPeak

  /** A row of the availability table, without its date (the table is keyed by date). */
  datatype Availability = Availability(available: int, blocked: bool, seasonType: Option<Season>)

  /** The value of the global settings record. */
  datatype Settings = Settings(maxCapacity: int, adminKey: Option<string>)

  /** The capacity assumed when no settings record exists. */
  const DefaultCapacity := 16

  /** The errors the mutations throw. */
  datatype Error =
    | Forbidden
    | NotFound
    | NotConfirmed
    | AdminKeyAlreadySet
    | Cooldown(daysAgo: int, daysRemaining: int)
    | ActiveBookingExists
}
