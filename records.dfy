/** The rows of the clinic's tables that the booking form and the doctor
    portal read and write. Primary keys are plain numbers. */
module Records {
  import opened Calendar

  datatype Option<T> = None | Some(value: T)

  type Id = nat

  /** Booking.status. */
  datatype Status = Pending | Accepted | Rejected | Completed | Cancelled

  /** A booking holds its slot unless it was rejected or cancelled. */
  predicate HoldsSlot(s: Status)
  {
    s != Rejected && s != Cancelled
  }

  datatype Booking = Booking(id: Id, patient: string, doctor: Id, date: Date, time: Time, status: Status)

  /** DoctorAvailability: a weekly window on one day. */
  datatype Availability = Availability(id: Id, doctor: Id, day: Weekday, start: Time, end: Time)

  /** DoctorLeave; an empty reason stands for a blank or missing one. */
  datatype Leave = Leave(id: Id, doctor: Id, date: Date, reason: string)

  /** Contact: a message sent through the contact page. */
  datatype Message = Message(id: Id, isRead: bool)

  /** The auth user linked to a doctor; `password` stands for the stored
      credential (hashing is not modelled). */
  datatype Account = Account(id: Id, username: string, email: string, password: string, firstName: string)

  datatype Doctor = Doctor(id: Id, name: string, specialization: string, department: Id, user: Option<Id>)

  datatype Department = Department(id: Id, name: string)
}
