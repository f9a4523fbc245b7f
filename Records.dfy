/** The values the client components hand to one another. */
module Records {

  datatype Option<T> = None | Some(value: T)

  /** The registration record the server returns and the client keeps:
      attendee name, attendee email and the issued pass identifier. */
  datatype PassRecord = PassRecord(name: string, email: string, passId: string)
}
