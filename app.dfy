/** The app's state: the store holding the ticket list and the search
    query, and the creation form holding its three fields. Each method
    replaces the state the way the corresponding handler does; the
    methods that compute something are specified by the functions of the
    Tickets module, the setters by field equalities. */
module App {
  import opened Strings
  import opened Types
  import opened Tickets

  class TicketStore {
    var tickets: seq<Ticket>
    var query: string

    /** The store starts with the seed ticket and an empty query. */
    constructor ()
      ensures tickets == [Seed] && query == ""
    {
      tickets := [Seed];
      query := "";
    }

    /** Puts `t` in front of the list; nothing else changes. */
    method AddTicket(t: Ticket)
      modifies this
      ensures tickets == [t] + old(tickets) && |tickets| == |old(tickets)| + 1
      ensures query == old(query)
    {
      tickets := [t] + tickets;
    }

    /** Flips the status of every ticket with id `id`. */
    method ToggleStatus(id: string)
      modifies this
      ensures tickets == Toggle(old(tickets), id)
      ensures query == old(query)
    {
      tickets := Toggle(tickets, id);
    }

    /** Stores the query exactly as typed; trimming happens at search time. */
    method SetQuery(q: string)
      modifies this
      ensures query == q && tickets == old(tickets)
    {
      query := q;
    }

    /** The tickets shown for the current query: all of them when the
        query is blank, otherwise the matching ones in list order, each as
        often as in the list. */
    function Filtered(): (r: seq<Ticket>)
      reads this
      ensures AllWhite(query) ==> r == tickets
      ensures !AllWhite(query) ==>
                IsSubsequence(r, tickets)
                && forall t :: multiset(r)[t]
                                 == if Matches(t, SearchKey(query)) then multiset(tickets)[t] else 0
    {
      Search(tickets, query)
    }

    /** The number the counter shows: how many positions of the list hold
        a ticket that is not closed. */
    function OpenTickets(): (n: nat)
      reads this
      ensures n == |OpenIndices(tickets)|
    {
      OpenCountIsOpenIndices(tickets);
      OpenCount(tickets)
    }
  }

  class TicketForm {
    var title: string
    var description: string
    var priority: Priority

    /** The form starts empty, with priority Low. */
    constructor ()
      ensures title == "" && description == "" && priority == Low
    {
      title := "";
      description := "";
      priority := Low;
    }

    method SetTitle(s: string)
      modifies this
      ensures title == s && description == old(description) && priority == old(priority)
    {
      title := s;
    }

    method SetDescription(s: string)
      modifies this
      ensures description == s && title == old(title) && priority == old(priority)
    {
      description := s;
    }

    method SetPriority(p: Priority)
      modifies this
      ensures priority == p && title == old(title) && description == old(description)
    {
      priority := p;
    }

    /** Whether the Save button is enabled: neither field is blank. */
    function CanSubmit(): (r: bool)
      reads this
      ensures r <==> !AllWhite(title) && !AllWhite(description)
    {
      CanSave(title, description)
    }

    /** A submission: with a blank title or description nothing happens;
        otherwise the ticket built from the trimmed fields is returned and
        the form is reset to empty fields and priority Low. */
    method HandleSubmit(id: string) returns (created: Option<Ticket>)
      modifies this
      ensures created == NewTicket(id, old(title), old(description), old(priority))
      ensures created.Some? ==> title == "" && description == "" && priority == Low
      ensures created.None? ==>
                title == old(title) && description == old(description) && priority == old(priority)
    {
      created := NewTicket(id, title, description, priority);
      if created.Some? {
        title := "";
        description := "";
        priority := Low;
      }
    }
  }

  /** The form wired to the store: a successful submission adds the new
      ticket in front of the list, and that ticket is well formed. When the
      store's tickets are all well formed, they still are afterwards; when
      their ids are unique and `id` is fresh, they still are afterwards. */
  method Submit(form: TicketForm, store: TicketStore, id: string) returns (created: Option<Ticket>)
    modifies form, store
    ensures created == NewTicket(id, old(form.title), old(form.description), old(form.priority))
    ensures store.tickets == (if created.Some? then [created.value] else []) + old(store.tickets)
    ensures store.query == old(store.query)
    ensures created.Some? ==> form.title == "" && form.description == "" && form.priority == Low
    ensures created.None? ==>
              form.title == old(form.title) && form.description == old(form.description)
              && form.priority == old(form.priority)
    ensures created.Some? ==> WellFormed(created.value) && created.value.status == Open
    ensures old(AllWellFormed(store.tickets)) ==> AllWellFormed(store.tickets)
    ensures old(UniqueIds(store.tickets)) && !old(HasId(store.tickets, id)) ==> UniqueIds(store.tickets)
  {
    created := form.HandleSubmit(id);
    NewTicketWellFormed(id, old(form.title), old(form.description), old(form.priority));
    if created.Some? {
      if AllWellFormed(store.tickets) {
        AddKeepsWellFormed(created.value, store.tickets);
      }
      if UniqueIds(store.tickets) && !HasId(store.tickets, id) {
        AddKeepsUniqueIds(created.value, store.tickets);
      }
      store.AddTicket(created.value);
    }
  }
}
