/** The ticket store's logic as values: the list transformations behind
    adding and toggling, the search view, the open-ticket count, ticket
    creation from the form's fields and the shortened description. */
module Tickets {
  import opened Strings
  import opened Types

  /** The ticket the store starts with. */
  const Seed: Ticket :=
    Ticket("1", "Login error", "User cannot login after password reset.", High, Open)

  /** No two tickets share an id. Ids come from a random generator, so
      nothing enforces this; it is an invariant the operations keep when
      new ids are fresh. */
  predicate UniqueIds(ts: seq<Ticket>) {
    forall i, j :: 0 <= i < j < |ts| ==> ts[i].id != ts[j].id
  }

  predicate HasId(ts: seq<Ticket>, id: string) {
    exists i :: 0 <= i < |ts| && ts[i].id == id
  }

  // ---------------------------------------------------------------------
  // Adding a ticket: the new ticket goes in front of the list.
  // ---------------------------------------------------------------------

  /** A ticket with a fresh id keeps the ids unique. */
  lemma AddKeepsUniqueIds(t: Ticket, ts: seq<Ticket>)
    requires UniqueIds(ts) && !HasId(ts, t.id)
    ensures UniqueIds([t] + ts)
  {
    var r := [t] + ts;
    forall i, j | 0 <= i < j < |r| ensures r[i].id != r[j].id {
      if i == 0 {
        assert r[j] == ts[j - 1];
      } else {
        assert r[i] == ts[i - 1] && r[j] == ts[j - 1];
      }
    }
  }

  // ---------------------------------------------------------------------
  // Toggling a status.
  // ---------------------------------------------------------------------

  /** A closed ticket reopens; any other becomes closed. */
  function Flip(s: Status): (r: Status)
    ensures r != s
  {
    if s == Closed then Open else Closed
  }

  function ToggleTicket(t: Ticket, id: string): Ticket {
    if t.id == id then t.(status := Flip(t.status)) else t
  }

  /** Every ticket whose id is `id` has its status flipped; the list keeps
      its length and order, every other ticket is unchanged, and no field
      but `status` ever changes. */
  function Toggle(ts: seq<Ticket>, id: string): (r: seq<Ticket>)
    ensures |r| == |ts|
    ensures forall i :: 0 <= i < |ts| ==>
              r[i].id == ts[i].id && r[i].title == ts[i].title
              && r[i].description == ts[i].description && r[i].priority == ts[i].priority
    ensures forall i :: 0 <= i < |ts| ==>
              r[i].status == (if ts[i].id == id then Flip(ts[i].status) else ts[i].status)
  {
    if ts == [] then [] else [ToggleTicket(ts[0], id)] + Toggle(ts[1..], id)
  }

  /** Toggling the same id twice gives back the original list. */
  lemma {:induction false} ToggleTwice(ts: seq<Ticket>, id: string)
    ensures Toggle(Toggle(ts, id), id) == ts
  {
    if ts != [] {
      ToggleTwice(ts[1..], id);
      assert Toggle(ts, id)[1..] == Toggle(ts[1..], id);
    }
  }

  /** Toggling an id no ticket has leaves the list unchanged. */
  lemma {:induction false} ToggleUnknownId(ts: seq<Ticket>, id: string)
    requires !HasId(ts, id)
    ensures Toggle(ts, id) == ts
  {
    if ts != [] {
      assert !HasId(ts[1..], id) by {
        forall i | 0 <= i < |ts| - 1 ensures ts[1..][i].id != id {
          assert ts[1..][i] == ts[i + 1];
        }
      }
      ToggleUnknownId(ts[1..], id);
    }
  }

  /** Toggling keeps the ids, hence their uniqueness. */
  lemma ToggleKeepsUniqueIds(ts: seq<Ticket>, id: string)
    requires UniqueIds(ts)
    ensures UniqueIds(Toggle(ts, id))
  {
  }

  // ---------------------------------------------------------------------
  // The open-ticket count.
  // ---------------------------------------------------------------------

  /** The counter's rule: every ticket whose status is not closed counts
      as open. */
  predicate IsOpen(t: Ticket) {
    t.status != Closed
  }

  /** The number of tickets that are not closed. It never exceeds the
      number of tickets; it equals it exactly when no ticket is closed and
      is zero exactly when every ticket is closed. */
  function OpenCount(ts: seq<Ticket>): (n: nat)
    ensures n <= |ts|
    ensures n == |ts| <==> forall i :: 0 <= i < |ts| ==> IsOpen(ts[i])
    ensures n == 0 <==> forall i :: 0 <= i < |ts| ==> !IsOpen(ts[i])
  {
    if ts == [] then 0
    else
      var rest := OpenCount(ts[1..]);
      assert forall i :: 1 <= i < |ts| ==> ts[i] == ts[1..][i - 1];
      (if IsOpen(ts[0]) then 1 else 0) + rest
  }

  /** Counting splits over concatenation. */
  lemma {:induction false} OpenCountAppend(a: seq<Ticket>, b: seq<Ticket>)
    ensures OpenCount(a + b) == OpenCount(a) + OpenCount(b)
  {
    if a == [] {
      assert a + b == b;
    } else {
      assert (a + b)[1..] == a[1..] + b;
      OpenCountAppend(a[1..], b);
    }
  }

  /** The positions of the tickets that count as open. */
  function OpenIndices(ts: seq<Ticket>): set<int> {
    set i | 0 <= i < |ts| && IsOpen(ts[i])
  }

  /** The open positions of a list are those of all but its last ticket,
      plus the last position when that ticket is open. */
  lemma OpenIndicesSnoc(ts: seq<Ticket>)
    requires ts != []
    ensures OpenIndices(ts)
            == OpenIndices(ts[..|ts| - 1]) + (if IsOpen(ts[|ts| - 1]) then {|ts| - 1} else {})
  {
    var init := ts[..|ts| - 1];
    assert forall i :: 0 <= i < |init| ==> init[i] == ts[i];
  }

  /** The count is the number of positions holding a ticket that is not
      closed, i.e. the length of the list of non-closed tickets. */
  lemma {:induction false} OpenCountIsOpenIndices(ts: seq<Ticket>)
    ensures OpenCount(ts) == |OpenIndices(ts)|
  {
    if ts != [] {
      var n := |ts| - 1;
      var init := ts[..n];
      assert ts == init + [ts[n]];
      OpenCountAppend(init, [ts[n]]);
      OpenCountAdd(ts[n], []);
      assert [ts[n]] + [] == [ts[n]];
      OpenCountIsOpenIndices(init);
      OpenIndicesSnoc(ts);
    }
  }

  /** Adding a ticket raises the count by one exactly when it is open. */
  lemma OpenCountAdd(t: Ticket, ts: seq<Ticket>)
    ensures OpenCount([t] + ts) == OpenCount(ts) + (if IsOpen(t) then 1 else 0)
  {
    assert ([t] + ts)[1..] == ts;
  }

  /** With unique ids, toggling a ticket's id moves the count by one: up
      when the ticket was closed, down otherwise. */
  lemma {:induction false} OpenCountToggle(ts: seq<Ticket>, k: nat)
    requires UniqueIds(ts) && k < |ts|
    ensures OpenCount(Toggle(ts, ts[k].id))
            == if ts[k].status == Closed then OpenCount(ts) + 1 else OpenCount(ts) - 1
  {
    var id := ts[k].id;
    var r := Toggle(ts, id);
    assert r[1..] == Toggle(ts[1..], id);
    if k == 0 {
      assert !HasId(ts[1..], id) by {
        forall i | 0 <= i < |ts| - 1 ensures ts[1..][i].id != id {
          assert ts[1..][i] == ts[i + 1];
        }
      }
      ToggleUnknownId(ts[1..], id);
    } else {
      assert ts[1..][k - 1] == ts[k];
      assert UniqueIds(ts[1..]) by {
        forall i, j | 0 <= i < j < |ts| - 1 ensures ts[1..][i].id != ts[1..][j].id {
          assert ts[1..][i] == ts[i + 1] && ts[1..][j] == ts[j + 1];
        }
      }
      OpenCountToggle(ts[1..], k - 1);
    }
  }

  // ---------------------------------------------------------------------
  // The search view.
  // ---------------------------------------------------------------------

  /** `a` is `b` with some elements left out, the rest kept in order. */
  ghost predicate IsSubsequence(a: seq<Ticket>, b: seq<Ticket>)
    decreases |b|
  {
    a == []
    || (b != []
        && ((a[0] == b[0] && IsSubsequence(a[1..], b[1..])) || IsSubsequence(a, b[1..])))
  }

  /** A ticket matches a lowered query when its lowered title or lowered
      description contains it. */
  predicate Matches(t: Ticket, q: string) {
    Includes(ToLower(t.title), q) || Includes(ToLower(t.description), q)
  }

  /** The query as the search uses it: trimmed, then lowered. */
  function SearchKey(query: string): (k: string)
    ensures k == [] <==> AllWhite(query)
  {
    TrimEmptyIff(query);
    ToLower(Trim(query))
  }

  /** The tickets that match `q`, in their original order: an order
      preserving subsequence holding every matching occurrence and no
      other ticket. */
  function FilterMatching(ts: seq<Ticket>, q: string): (r: seq<Ticket>)
    ensures IsSubsequence(r, ts)
    ensures forall t :: multiset(r)[t] == if Matches(t, q) then multiset(ts)[t] else 0
    ensures forall t :: t in r <==> t in ts && Matches(t, q)
  {
    if ts == [] then []
    else
      var rest := FilterMatching(ts[1..], q);
      assert ts == [ts[0]] + ts[1..];
      if Matches(ts[0], q) then
        assert ([ts[0]] + rest)[1..] == rest;
        [ts[0]] + rest
      else
        rest
  }

  /** The filtered view: the whole list when the query is blank, otherwise
      the tickets whose title or description contains the trimmed query,
      ignoring case, in their original order. */
  function Search(ts: seq<Ticket>, query: string): (r: seq<Ticket>)
    ensures AllWhite(query) ==> r == ts
    ensures !AllWhite(query) ==>
              IsSubsequence(r, ts)
              && (forall t :: multiset(r)[t]
                               == if Matches(t, SearchKey(query)) then multiset(ts)[t] else 0)
              && (forall t :: t in r <==> t in ts && Matches(t, SearchKey(query)))
  {
    var q := SearchKey(query);
    if q == [] then ts else FilterMatching(ts, q)
  }

  /** Upper- and lower-case queries give the same view. */
  lemma SearchIgnoresQueryCase(ts: seq<Ticket>, query: string)
    ensures Search(ts, ToLower(query)) == Search(ts, query)
  {
    TrimToLowerCommute(query);
    ToLowerIdempotent(Trim(query));
  }

  /** A new ticket shows first in the view exactly when it matches. */
  lemma SearchAdd(t: Ticket, ts: seq<Ticket>, query: string)
    ensures Search([t] + ts, query)
            == (if AllWhite(query) || Matches(t, SearchKey(query)) then [t] else [])
               + Search(ts, query)
  {
    assert ([t] + ts)[1..] == ts;
  }

  /** Toggling only touches statuses, so it never changes what matches:
      filtering then toggling is toggling then filtering. */
  lemma {:induction false} FilterToggleCommute(ts: seq<Ticket>, q: string, id: string)
    ensures FilterMatching(Toggle(ts, id), q) == Toggle(FilterMatching(ts, q), id)
  {
    if ts != [] {
      var r := Toggle(ts, id);
      assert r[0] == ToggleTicket(ts[0], id);
      assert r[1..] == Toggle(ts[1..], id);
      FilterToggleCommute(ts[1..], q, id);
    }
  }

  lemma SearchToggleCommute(ts: seq<Ticket>, query: string, id: string)
    ensures Search(Toggle(ts, id), query) == Toggle(Search(ts, query), id)
  {
    FilterToggleCommute(ts, SearchKey(query), id);
  }

  /** Searching the view again with the same query changes nothing. */
  lemma {:induction false} FilterIdempotent(ts: seq<Ticket>, q: string)
    ensures FilterMatching(FilterMatching(ts, q), q) == FilterMatching(ts, q)
  {
    if ts != [] {
      FilterIdempotent(ts[1..], q);
      var rest := FilterMatching(ts[1..], q);
      if Matches(ts[0], q) {
        assert ([ts[0]] + rest)[1..] == rest;
      }
    }
  }

  // ---------------------------------------------------------------------
  // Ticket creation from the form.
  // ---------------------------------------------------------------------

  /** Whether the form may be submitted: title and description are both
      non-empty once trimmed, that is, neither is blank. */
  predicate CanSave(title: string, description: string): (r: bool)
    ensures r <==> !AllWhite(title) && !AllWhite(description)
  {
    TrimEmptyIff(title);
    TrimEmptyIff(description);
    |Trim(title)| > 0 && |Trim(description)| > 0
  }

  /** The ticket a submission creates: none when the title or the
      description is blank, otherwise an open ticket with the trimmed
      title and description, the chosen priority and the given id. */
  function NewTicket(id: string, title: string, description: string, priority: Priority)
    : (r: Option<Ticket>)
    ensures r.None? <==> AllWhite(title) || AllWhite(description)
    ensures r.Some? ==> r.value == Ticket(id, Trim(title), Trim(description), priority, Open)
  {
    if !CanSave(title, description) then None
    else Some(Ticket(id, Trim(title), Trim(description), priority, Open))
  }

  /** Non-empty text with no white space around it, which is what `trim`
      leaves of a non-blank string (see Strings.TrimFixedPoint). */
  predicate IsTrimmedText(s: string) {
    s != [] && !IsWhite(s[0]) && !IsWhite(s[|s| - 1])
  }

  /** What every created ticket satisfies: a non-empty title and
      description with no white space around them. */
  predicate WellFormed(t: Ticket) {
    IsTrimmedText(t.title) && IsTrimmedText(t.description)
  }

  predicate AllWellFormed(ts: seq<Ticket>) {
    forall i :: 0 <= i < |ts| ==> WellFormed(ts[i])
  }

  /** Adding a well-formed ticket keeps every ticket well formed. */
  lemma AddKeepsWellFormed(t: Ticket, ts: seq<Ticket>)
    requires WellFormed(t) && AllWellFormed(ts)
    ensures AllWellFormed([t] + ts)
  {
    forall i | 0 < i < |ts| + 1 ensures WellFormed(([t] + ts)[i]) {
      assert ([t] + ts)[i] == ts[i - 1];
    }
  }

  lemma NewTicketWellFormed(id: string, title: string, description: string, priority: Priority)
    ensures match NewTicket(id, title, description, priority)
            case None => true
            case Some(t) => WellFormed(t) && t.status == Open
                            && Trim(t.title) == t.title && Trim(t.description) == t.description
  {
    TrimIdempotent(title);
    TrimIdempotent(description);
  }

  /** Toggling never breaks well-formedness: titles and descriptions do
      not change. */
  lemma ToggleKeepsWellFormed(ts: seq<Ticket>, id: string)
    requires AllWellFormed(ts)
    ensures AllWellFormed(Toggle(ts, id))
  {
  }

  // ---------------------------------------------------------------------
  // The shortened description shown for each ticket.
  // ---------------------------------------------------------------------

  const MaxShown: nat := 120
  const Kept: nat := 117
  const Ellipsis: string := "..."

  /** At most 120 characters: a description that fits is shown as is, a
      longer one as its first 117 characters followed by "...". */
  function ShortDesc(d: string): (r: string)
    ensures |r| <= MaxShown
    ensures |d| <= MaxShown ==> r == d
    ensures |d| > MaxShown ==> |r| == MaxShown && r[..Kept] == d[..Kept] && r[Kept..] == Ellipsis
  {
    if |d| > MaxShown then d[..Kept] + Ellipsis else d
  }

  /** A shortened description is not shortened again. */
  lemma ShortDescIdempotent(d: string)
    ensures ShortDesc(ShortDesc(d)) == ShortDesc(d)
  {
  }
}
