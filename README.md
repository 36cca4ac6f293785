# Mini ticketing app: the ticket store, verified

This project models the state and logic of a small single-page ticketing app (`src/App.tsx`, `src/types.ts`).
The app keeps a list of support tickets and a search query.
A form creates tickets from a title, a description and a priority.
Each ticket can be closed and reopened.
A counter shows how many tickets are open.
The list shown is filtered by a case-insensitive search over title and description.

The Dafny model has four modules:

- `Types` (`types.dfy`) holds the ticket record and its two enumerations: priority Low, Medium or High, and status open or closed.
- `Strings` (`strings.dfy`) holds the three JavaScript string operations the app relies on:
  - `trim`, with the ECMAScript white-space and line-terminator set;
  - `toLowerCase`, for ASCII letters;
  - `includes`.
- `Tickets` (`tickets.dfy`) holds the list logic as values:
  - prepending a ticket;
  - toggling a status by id;
  - the search view;
  - the open count;
  - building a ticket from the form's fields;
  - the shortened description.
- `App` (`app.dfy`) holds the two stateful components as classes:
  - `TicketStore` holds the ticket list and the query;
  - `TicketForm` holds the form's three fields.

  Each method reassigns the fields as the corresponding handler or state setter does. The methods that compute something are specified by the functions of `Tickets`; the setters are specified by field equalities.
  `App.Submit` wires a form submission to the store, as the `onCreate={addTicket}` prop does.

Ticket ids come from a random generator in the app, so here they are a parameter of every operation that creates a ticket.
Unique ids are not enforced by the app.
The model treats them as an invariant: adding a ticket with a fresh id keeps it, and toggling always keeps it.

Toggling flips the status of *every* ticket whose id equals the given one, exactly as the `map` in `toggleStatus` does.
With unique ids that is at most one ticket.
With an unknown id nothing changes (`Tickets.ToggleUnknownId`).

## Model

| member | source | states |
|---|---|---|
| Strings.Trim | src/App.tsx:69 | the trimmed string is no longer than the input and neither starts nor ends with white space |
| Strings.TrimIsInfix | src/App.tsx:77-78 | `trim` keeps one contiguous slice of the input and cuts only white space before and after it |
| Strings.TrimEmptyIff | src/App.tsx:69 | `trim` yields the empty string exactly when the input is all white space |
| Strings.TrimFixedPoint | src/App.tsx:77-78 | `trim` leaves a string unchanged exactly when it is empty or neither starts nor ends with white space |
| Strings.TrimIdempotent | src/App.tsx:77-78 | trimming twice is trimming once |
| Strings.ToLower | src/App.tsx:207 | same length; every upper-case ASCII letter is lowered and every other character kept |
| Strings.ToLowerIdempotent | src/App.tsx:211-212 | lowering a lowered string changes nothing |
| Strings.LowerCharKeepsWhite | src/App.tsx:207 | lowering maps white characters to white characters and nothing else to one |
| Strings.TrimToLowerCommute | src/App.tsx:207 | trimming then lowering the query equals lowering then trimming it |
| Strings.Includes | src/App.tsx:211-212 | `includes` is true exactly when the needle occurs at some position of the text; the empty needle occurs everywhere |
| Tickets.AddKeepsUniqueIds | src/App.tsx:216-218 | prepending a ticket whose id is fresh keeps the ids unique |
| Tickets.Flip | src/App.tsx:224 | closed becomes open and open becomes closed; the status always changes |
| Tickets.Toggle | src/App.tsx:220-228 | same length and order; the tickets with the given id have their status flipped; every other ticket is unchanged; no field except status changes |
| Tickets.ToggleTwice | src/App.tsx:220-228 | toggling the same id twice restores the list |
| Tickets.ToggleUnknownId | src/App.tsx:221-227 | toggling an id no ticket has leaves the list unchanged |
| Tickets.ToggleKeepsUniqueIds | src/App.tsx:221-227 | toggling keeps the ids unique |
| Tickets.OpenCount | src/App.tsx:36 | the count is at most the number of tickets; it equals that number exactly when no ticket is closed; it is zero exactly when every ticket is closed |
| Tickets.OpenCountIsOpenIndices | src/App.tsx:36 | the count equals the number of positions in the list that hold a ticket whose status is not closed |
| Tickets.OpenCountAppend | src/App.tsx:36 | the count of a concatenation is the sum of the counts |
| Tickets.OpenCountAdd | src/App.tsx:216-218 | prepending a ticket raises the count by one exactly when that ticket is not closed |
| Tickets.OpenCountToggle | src/App.tsx:220-228 | with unique ids, toggling a ticket raises the count by one if it was closed and lowers it by one otherwise |
| Tickets.SearchKey | src/App.tsx:207-208 | the trimmed, lowered query is empty exactly when the query is all white space |
| Tickets.FilterMatching | src/App.tsx:209-213 | the result is an order-preserving subsequence of the list; it holds each matching ticket as often as the list does and no non-matching ticket |
| Tickets.Search | src/App.tsx:206-214 | a blank query returns the whole list; otherwise the result is an order-preserving subsequence holding each ticket whose lowered title or description contains the search key as often as the list does, and no other ticket |
| Tickets.SearchIgnoresQueryCase | src/App.tsx:207 | a query and its lowered form give the same view |
| Tickets.SearchAdd | src/App.tsx:216-218 | after a ticket is prepended, the view is the old view with that ticket in front exactly when it matches or the query is blank |
| Tickets.FilterToggleCommute | src/App.tsx:209-228 | filtering commutes with toggling, because toggling never changes what matches |
| Tickets.SearchToggleCommute | src/App.tsx:206-228 | the view of the toggled list is the toggled view |
| Tickets.FilterIdempotent | src/App.tsx:209-213 | filtering the filtered list again with the same key changes nothing |
| Tickets.CanSave | src/App.tsx:69 | the form may be saved exactly when neither title nor description is all white space |
| Tickets.NewTicket | src/App.tsx:73-81 | no ticket when the title or the description is blank; otherwise the ticket with the given id, the trimmed title and description, the chosen priority and status open |
| Tickets.NewTicketWellFormed | src/App.tsx:75-81 | a created ticket is open; its title and description are non-empty, without surrounding white space, and unchanged by another trim |
| Tickets.AddKeepsWellFormed | src/App.tsx:216-218 | prepending a well-formed ticket to a well-formed list gives a well-formed list |
| Tickets.ToggleKeepsWellFormed | src/App.tsx:220-228 | toggling keeps every ticket well formed |
| Tickets.ShortDesc | src/App.tsx:141-144 | at most 120 characters; a description of at most 120 is shown unchanged; a longer one shows its first 117 characters followed by "..." |
| Tickets.ShortDescIdempotent | src/App.tsx:141-144 | shortening a shortened description changes nothing |
| App.TicketStore.constructor | src/App.tsx:194-204 | the store starts with the single seed ticket and an empty query |
| App.TicketStore.AddTicket | src/App.tsx:216-218 | the new ticket is put in front of the old list; the query is unchanged |
| App.TicketStore.ToggleStatus | src/App.tsx:220-228 | the list becomes the toggled list; the query is unchanged |
| App.TicketStore.SetQuery | src/App.tsx:245 | the query becomes exactly what was typed; the list is unchanged |
| App.TicketStore.Filtered | src/App.tsx:206-214 | the shown list is the whole list for a blank query; otherwise it is the order-preserving subsequence holding each matching ticket as often as the list does and nothing else |
| App.TicketStore.OpenTickets | src/App.tsx:36 | the counter shows the number of positions holding a ticket that is not closed |
| App.TicketForm.constructor | src/App.tsx:65-67 | the form starts with an empty title, an empty description and priority Low |
| App.TicketForm.SetTitle | src/App.tsx:95 | only the title changes |
| App.TicketForm.SetDescription | src/App.tsx:104 | only the description changes |
| App.TicketForm.SetPriority | src/App.tsx:115 | only the priority changes |
| App.TicketForm.CanSubmit | src/App.tsx:69 | the Save button is enabled exactly when neither the title nor the description is all white space |
| App.TicketForm.HandleSubmit | src/App.tsx:71-87 | returns the ticket `NewTicket` builds from the fields as they were; on success the form is reset to empty fields and Low; on a blank field nothing changes |
| App.Submit | src/App.tsx:82 | a successful submission puts the new ticket in front of the store's list and resets the form to empty fields and Low; a blank one leaves both the list and the form alone; the new ticket is well formed and open; a well-formed list stays well formed, and unique ids stay unique when the given id is fresh |

## Left out

- Rendering, React hooks and CSS are not modelled. The memoised `filtered` value is recomputed on each read of `App.TicketStore.Filtered`.
- The id generator (`Math.random` at src/App.tsx:8) is left out. The id is a parameter of `NewTicket`, `HandleSubmit` and `Submit`.
- The colours chosen from the priority (src/App.tsx:10-27) are presentation only and are not modelled.
- `e.preventDefault()` and the disabled state of the Save button are browser behaviour. The button's condition is `Tickets.CanSave`.
- Strings.ToLower: only ASCII letters are lowered. The full Unicode case mapping of `toLowerCase` (including mappings that change the length of a string) is not modelled. Every white character maps to itself, as in the full mapping.
- Strings are sequences of Unicode scalar values. A JavaScript string is a sequence of UTF-16 code units and may hold a lone surrogate, which a Dafny `char` cannot represent.
- Tickets.ShortDesc: lengths and slices count characters (code points). JavaScript counts UTF-16 code units, so the two differ for descriptions with characters outside the Basic Multilingual Plane.
- Status has exactly the two values of the `Status` type. The counter's rule "not closed counts as open" is kept in `Tickets.IsOpen`. With two values it coincides with "open"; a ticket without a status cannot be expressed.
- React batches state updates asynchronously. The model applies each update at once, in program order.
