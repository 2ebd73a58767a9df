/**
 * The support-ticket routes a signed-in user calls: open a ticket and list
 * their own. Nothing is validated: subject and description are stored as sent.
 */
module Tickets {
  import opened Records
  import opened Seqs
  import Db

  /** The record POST /tickets appends. */
  function NewTicket(id: int, userId: int, subject: string, description: string, now: int): Ticket {
    Ticket(id, userId, subject, description, TicketOpen, now, None, None, None)
  }

  /** POST /tickets: append an open ticket with id `tickets.length + 1`. It always succeeds. */
  method Create(st: Db.Store, userId: int, subject: string, description: string, now: int) returns (t: Ticket)
    modifies st`tickets
    ensures t == NewTicket(|old(st.tickets)| + 1, userId, subject, description, now)
    ensures st.tickets == old(st.tickets) + [t]
  {
    t := NewTicket(|st.tickets| + 1, userId, subject, description, now);
    st.tickets := st.tickets + [t];
  }

  /** GET /tickets: the caller's tickets. */
  function ListFor(tickets: seq<Ticket>, userId: int): (r: seq<Ticket>)
    ensures forall t :: t in r <==> t in tickets && t.userId == userId
    ensures forall t :: multiset(r)[t] == if t.userId == userId then multiset(tickets)[t] else 0
  {
    Filter(tickets, IsUsersTicket(userId))
  }

  /** The listing keeps stored order: a ticket opened later by the caller is listed last. */
  lemma ListForAppend(tickets: seq<Ticket>, t: Ticket, userId: int)
    ensures ListFor(tickets + [t], userId) == ListFor(tickets, userId) + (if t.userId == userId then [t] else [])
  {
    FilterAppend(tickets, [t], IsUsersTicket(userId));
    FilterCons(t, [], IsUsersTicket(userId));
    assert [t] + [] == [t];
  }

  /** Ticket ids are 1, 2, ..., n in stored order. */
  predicate SequentialIds(tickets: seq<Ticket>) {
    forall i :: 0 <= i < |tickets| ==> tickets[i].id == i + 1
  }

  /**
   * No handler removes a ticket: opening one appends id n + 1, and every other
   * change (resolve, close, mark-read) rewrites one ticket and keeps its id.
   * So ids stay 1..n from a 1..n seed.
   */
  lemma {:induction false} IdsStaySequential(tickets: seq<Ticket>, userId: int, subject: string,
                                              description: string, now: int, i: int, t: Ticket)
    requires SequentialIds(tickets)
    ensures SequentialIds(tickets + [NewTicket(|tickets| + 1, userId, subject, description, now)])
    ensures 0 <= i < |tickets| && t.id == tickets[i].id ==> SequentialIds(tickets[i := t])
  {
  }
}
