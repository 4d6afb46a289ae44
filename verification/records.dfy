/**
 * The three collections the backend keeps (`{ guests, tables, reminders }`)
 * and the records they hold, as the handlers in my-backend/index.js build
 * and update them.
 */
module Records {
  import opened Values

  const CONFIRMED: string := "Confirmed"
  const TENTATIVE: string := "Tentative"
  const STANDARD: string := "Standard"
  const VIP: string := "VIP"

  /** A guest's `age`: `null` or a number. */
  datatype Age = NoAge | Years(n: int)

  /** JavaScript truthiness of an age: `null` and `0` are falsy. */
  predicate AgeTruthy(a: Age)
  {
    a.Years? && a.n != 0
  }

  /** A guest. `table` is the denormalised NAME of the guest's table;
      `None` is the field being absent (never set, or deleted). */
  datatype Guest = Guest(
    id: Id,
    name: string,
    contactNumber: string,
    instagram: string,
    confirmed: bool,
    status: string,
    gender: string,
    age: Age,
    table: Option<string>)

  /** A table. `guests` holds guest ids, by whatever representation the
      request that wrote them used. */
  datatype Table = Table(
    id: Id,
    name: string,
    seats: int,
    tableType: string,
    spending: int,
    confirmed: bool,
    guests: seq<Id>)

  datatype Reminder = Reminder(id: Id, message: string, date: Option<string>)

  /** Truthiness of `guest.table`: present and not the empty string. */
  predicate HasTable(g: Guest)
  {
    g.table.Some? && g.table.value != ""
  }
}
