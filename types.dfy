/** The ticket record and its two enumerations. */
module Types {

  datatype Priority = Low | Medium | High

  datatype Status = Open | Closed

  /** A support ticket. Only `status` ever changes after creation. */
  datatype Ticket = Ticket(
    id: string,
    title: string,
    description: string,
    priority: Priority,
    status: Status)

  datatype Option<T> = None | Some(value: T)
}
