/** The ticket lifecycle of the waiting-line service: a counter that hands out
    queue numbers and a table of tickets that are created, listed, served in
    arrival order and given a new status. The SQLite database is replaced by the
    fields of one `Store` object; each SQL statement becomes the operation on
    those fields that it denotes. */
module Models {

  datatype Option<T> = None | Some(value: T)

  datatype Result<T, E> = Success(value: T) | Failure(error: E)

  /** The exception `update_status` raises for a status it does not know. */
  datatype Error = ValueError(message: string)

  /** The three values the `status` column holds. */
  datatype Status = Waiting | Served | Cancelled {
    /** The text stored in the column. */
    function Text(): string
    {
      match this
      case Waiting => "waiting"
      case Served => "served"
      case Cancelled => "cancelled"
    }
  }

  /** Membership of a status text in the three recognised values, returning the
      status it names. */
  function ParseStatus(s: string): (r: Option<Status>)
    ensures r.Some? <==> (s == "waiting" || s == "served" || s == "cancelled")
    ensures r.Some? ==> r.value.Text() == s
  {
    if s == "waiting" then Some(Waiting)
    else if s == "served" then Some(Served)
    else if s == "cancelled" then Some(Cancelled)
    else None
  }

  /** Every stored status is recognised, as itself. */
  lemma ParseText(st: Status)
    ensures ParseStatus(st.Text()) == Some(st)
  {
  }

  /** One row of the `tickets` table. `createdAt` is the ISO timestamp text,
      kept opaque. */
  datatype Ticket = Ticket(id: int, number: int, name: Option<string>, status: Status, createdAt: string)

  /** Python truthiness of the optional status filter: `None` and `""` are false. */
  predicate IsTruthy(status: Option<string>)
  {
    status.Some? && status.value != ""
  }

  /** Rows in strictly ascending id order (ids are therefore unique). */
  ghost predicate IdsIncreasing(ts: seq<Ticket>)
  {
    forall i, j :: 0 <= i < j < |ts| ==> ts[i].id < ts[j].id
  }

  /** Queue numbers strictly ascending along the same order. */
  ghost predicate NumbersIncreasing(ts: seq<Ticket>)
  {
    forall i, j :: 0 <= i < j < |ts| ==> ts[i].number < ts[j].number
  }

  /** The query that selects the rows whose status column equals a given text:
      those rows, in their original order. */
  function FilterStatus(ts: seq<Ticket>, status: string): (r: seq<Ticket>)
    ensures |r| <= |ts|
    ensures forall t :: t in r <==> t in ts && t.status.Text() == status
    ensures IdsIncreasing(ts) ==> IdsIncreasing(r)
  {
    if ts == [] then []
    else
      var rest := FilterStatus(ts[1..], status);
      assert forall t :: t in ts[1..] ==> t in ts;
      if ts[0].status.Text() == status then
        assert IdsIncreasing(ts) ==> forall t :: t in rest ==> ts[0].id < t.id;
        [ts[0]] + rest
      else
        rest
  }

  /** The query for the single waiting row with the lowest id, over rows kept in
      id order: the position of the first waiting row, if any. */
  function FirstWaiting(ts: seq<Ticket>): (r: Option<nat>)
    ensures r.None? <==> forall k :: 0 <= k < |ts| ==> ts[k].status != Waiting
    ensures r.Some? ==> r.value < |ts| && ts[r.value].status == Waiting
    ensures r.Some? ==> forall k :: 0 <= k < r.value ==> ts[k].status != Waiting
  {
    if ts == [] then None
    else if ts[0].status == Waiting then Some(0)
    else
      match FirstWaiting(ts[1..])
      case None => None
      case Some(k) => Some(k + 1)
  }

  /** The statement that overwrites the status of the rows with a given id:
      every row with that id takes the new status; every other row, and every
      other column, stays as it was. */
  function SetStatus(ts: seq<Ticket>, id: int, status: Status): (r: seq<Ticket>)
    ensures |r| == |ts|
    ensures forall k :: 0 <= k < |ts| ==>
              r[k].id == ts[k].id && r[k].number == ts[k].number &&
              r[k].name == ts[k].name && r[k].createdAt == ts[k].createdAt
    ensures forall k :: 0 <= k < |ts| ==>
              r[k].status == (if ts[k].id == id then status else ts[k].status)
  {
    if ts == [] then []
    else
      var head := if ts[0].id == id then ts[0].(status := status) else ts[0];
      [head] + SetStatus(ts[1..], id, status)
  }

  /** The row `FirstWaiting` picks is the waiting ticket with the smallest id:
      serving is oldest first. */
  lemma OldestWaitingFirst(ts: seq<Ticket>)
    requires IdsIncreasing(ts)
    requires FirstWaiting(ts).Some?
    ensures forall t :: t in ts && t.status == Waiting ==> ts[FirstWaiting(ts).value].id <= t.id
  {
  }

  /** On rows with unique ids, the update touches exactly the row at the
      position of the id. */
  lemma SetStatusAt(ts: seq<Ticket>, i: nat, status: Status)
    requires IdsIncreasing(ts)
    requires i < |ts|
    ensures SetStatus(ts, ts[i].id, status) == ts[i := ts[i].(status := status)]
  {
  }

  /** The columns the invariant of the table speaks about are untouched by a
      status update, so the invariant survives it. */
  lemma SetStatusKeepsInvariant(ts: seq<Ticket>, id: int, status: Status, nextId: int, counter: Option<int>)
    requires TableInvariant(ts, nextId, counter)
    ensures TableInvariant(SetStatus(ts, id, status), nextId, counter)
  {
  }

  /** An update whose id matches no row leaves the table as it was (the code
      does not report this case). */
  lemma SetStatusMissingId(ts: seq<Ticket>, id: int, status: Status)
    requires forall t :: t in ts ==> t.id != id
    ensures SetStatus(ts, id, status) == ts
  {
  }

  /** The first row of an id-ordered listing has the smallest id. */
  lemma HeadHasSmallestId(ts: seq<Ticket>, k: nat)
    requires IdsIncreasing(ts)
    requires k < |ts|
    ensures ts[0].id <= ts[k].id
  {
  }

  /** A non-empty listing contains its first row. */
  lemma NonEmptyHasHead(ts: seq<Ticket>)
    ensures ts != [] ==> ts[0] in ts
  {
  }

  /** Dropping the head of an id-ordered listing removes exactly that row. */
  lemma TailMembers(ts: seq<Ticket>)
    requires IdsIncreasing(ts) && ts != []
    ensures forall t :: t in ts[1..] <==> t in ts && t != ts[0]
  {
  }

  /** Two id-ordered listings holding the same rows are the same listing: the
      ordered filter result is determined by which rows it contains. */
  lemma {:induction false} IdOrderedListingUnique(a: seq<Ticket>, b: seq<Ticket>)
    requires IdsIncreasing(a) && IdsIncreasing(b)
    requires forall t :: t in a <==> t in b
    ensures a == b
  {
    NonEmptyHasHead(a);
    NonEmptyHasHead(b);
    if a != [] && b != [] {
      var i :| 0 <= i < |b| && b[i] == a[0];
      var j :| 0 <= j < |a| && a[j] == b[0];
      HeadHasSmallestId(a, j);
      HeadHasSmallestId(b, i);
      assert i == 0;
      TailMembers(a);
      TailMembers(b);
      IdOrderedListingUnique(a[1..], b[1..]);
      assert a == [a[0]] + a[1..] && b == [b[0]] + b[1..];
    }
  }

  /** In a table ordered by id whose numbers rise with it, a smaller id always
      carries a smaller queue number. */
  lemma IdOrderIsNumberOrder(ts: seq<Ticket>)
    requires IdsIncreasing(ts) && NumbersIncreasing(ts)
    ensures forall a, b :: a in ts && b in ts && a.id < b.id ==> a.number < b.number
  {
  }

  /** What holds of the table and the two counters between operations: ids and
      numbers rise together along the table, every id lies below the next one
      AUTOINCREMENT hands out, every number below the stored counter, and the
      table is empty while the counter row is absent. */
  ghost predicate TableInvariant(ts: seq<Ticket>, nextId: int, counter: Option<int>)
  {
    nextId >= 1 &&
    IdsIncreasing(ts) && NumbersIncreasing(ts) &&
    (forall k :: 0 <= k < |ts| ==> 1 <= ts[k].id < nextId) &&
    (counter.None? ==> ts == []) &&
    (counter.Some? ==>
      counter.value >= 1 && (forall k :: 0 <= k < |ts| ==> 1 <= ts[k].number < counter.value))
  }

  /** The persistent state: the `meta` row `next_number` and the `tickets` table. */
  class Store {
    /** Value of the `next_number` row of `meta`; `None` while the row is absent. */
    var counter: Option<int>
    /** The id SQLite's AUTOINCREMENT hands to the next inserted row. */
    var nextId: int
    /** The `tickets` table, in ascending id order. */
    var tickets: seq<Ticket>

    ghost predicate Valid()
      reads this
    {
      TableInvariant(tickets, nextId, counter)
    }

    /** A database whose tables exist but hold no rows yet. */
    constructor ()
      ensures Valid()
      ensures counter == None && nextId == 1 && tickets == []
    {
      counter := None;
      nextId := 1;
      tickets := [];
    }

    /** `init_db_if_missing`: `INSERT OR IGNORE` seeds the counter with 1 only
        when its row is absent. */
    method InitIfMissing()
      requires Valid()
      modifies this
      ensures Valid()
      ensures counter == (if old(counter).None? then Some(1) else old(counter))
      ensures old(counter).Some? ==> counter == old(counter)
      ensures tickets == old(tickets) && nextId == old(nextId)
    {
      if counter.None? {
        counter := Some(1);
      }
    }

    /** `get_next_number`: read the counter (1 when its row is missing), store
        that value plus one, return the value read. */
    method NextNumber() returns (n: int)
      requires Valid()
      modifies this
      ensures Valid()
      ensures n == (if old(counter).None? then 1 else old(counter).value)
      ensures counter == Some(n + 1)
      ensures n >= 1
      ensures forall k :: 0 <= k < |tickets| ==> tickets[k].number < n
      ensures tickets == old(tickets) && nextId == old(nextId)
    {
      if counter.None? {
        counter := Some(1);
        n := 1;
      } else {
        n := counter.value;
      }
      counter := Some(n + 1);
    }

    /** `create_ticket`: allocate a number, then insert a waiting row under a
        fresh id and return it. */
    method CreateTicket(name: Option<string>, createdAt: string) returns (t: Ticket)
      requires Valid()
      modifies this
      ensures Valid()
      ensures tickets == old(tickets) + [t]
      ensures t.number == (if old(counter).None? then 1 else old(counter).value)
      ensures counter == Some(t.number + 1)
      ensures t.id == old(nextId) && nextId == old(nextId) + 1
      ensures t.name == name && t.status == Waiting && t.createdAt == createdAt
      ensures forall k :: 0 <= k < |old(tickets)| ==> old(tickets)[k].id < t.id && old(tickets)[k].number < t.number
    {
      var num := NextNumber();
      t := Ticket(nextId, num, name, Waiting, createdAt);
      nextId := nextId + 1;
      tickets := tickets + [t];
    }

    /** `list_tickets`: with a truthy status, the rows with that status;
        otherwise every row; ascending id order either way. */
    function ListTickets(status: Option<string>): (r: seq<Ticket>)
      reads this
      requires Valid()
      ensures IdsIncreasing(r)
      ensures forall t :: t in r <==> t in tickets && (IsTruthy(status) ==> t.status.Text() == status.value)
    {
      if IsTruthy(status) then FilterStatus(tickets, status.value) else tickets
    }

    /** `serve_next`: mark the waiting ticket with the smallest id as served
        and return it; `None`, with nothing changed, when no ticket waits. */
    method ServeNext() returns (r: Option<Ticket>)
      requires Valid()
      modifies this
      ensures Valid()
      ensures counter == old(counter) && nextId == old(nextId)
      ensures r.None? <==> forall k :: 0 <= k < |old(tickets)| ==> old(tickets)[k].status != Waiting
      ensures r.None? ==> tickets == old(tickets)
      ensures r.Some? ==> FirstWaiting(old(tickets)).Some?
      ensures r.Some? ==> (var i := FirstWaiting(old(tickets)).value;
                r.value == old(tickets)[i].(status := Served) && tickets == old(tickets)[i := r.value])
      ensures r.Some? ==> r.value.status == Served
      ensures r.Some? ==> forall k :: 0 <= k < |old(tickets)| && old(tickets)[k].status == Waiting ==>
                r.value.id <= old(tickets)[k].id
    {
      var first := FirstWaiting(tickets);
      if first.None? {
        return None;
      }
      var i := first.value;
      var row := tickets[i];
      OldestWaitingFirst(tickets);
      SetStatusAt(tickets, i, Served);
      tickets := SetStatus(tickets, row.id, Served);
      SetStatusKeepsInvariant(old(tickets), row.id, Served, nextId, counter);
      r := Some(row.(status := Served));
      assert r.value.(status := Waiting) == row;
    }

    /** `update_status`: reject an unknown status with `ValueError`, otherwise
        overwrite the status of the ticket with that id and report success,
        whether or not such a ticket exists. */
    method UpdateStatus(ticketId: int, status: string) returns (r: Result<bool, Error>)
      requires Valid()
      modifies this
      ensures Valid()
      ensures counter == old(counter) && nextId == old(nextId)
      ensures ParseStatus(status).None? ==> r == Failure(ValueError("invalid status")) && tickets == old(tickets)
      ensures ParseStatus(status).Some? ==> r == Success(true)
      ensures ParseStatus(status).Some? ==> tickets == SetStatus(old(tickets), ticketId, ParseStatus(status).value)
      ensures (forall t :: t in old(tickets) ==> t.id != ticketId) ==> tickets == old(tickets)
    {
      var parsed := ParseStatus(status);
      if parsed.None? {
        return Failure(ValueError("invalid status"));
      }
      if forall t :: t in tickets ==> t.id != ticketId {
        SetStatusMissingId(tickets, ticketId, parsed.value);
      }
      SetStatusKeepsInvariant(tickets, ticketId, parsed.value, nextId, counter);
      tickets := SetStatus(tickets, ticketId, parsed.value);
      r := Success(true);
    }
  }

  /** Two allocations in a row hand out two consecutive, distinct numbers. */
  method TwoAllocations(s: Store) returns (m: int, n: int)
    requires s.Valid()
    modifies s
    ensures s.Valid()
    ensures m < n && n == m + 1
    ensures s.counter == Some(n + 1)
  {
    m := s.NextNumber();
    n := s.NextNumber();
  }

  /** Initialising twice leaves the counter where initialising once does. */
  method InitTwice(s: Store)
    requires s.Valid()
    modifies s
    ensures s.Valid()
    ensures s.counter == (if old(s.counter).None? then Some(1) else old(s.counter))
    ensures s.tickets == old(s.tickets) && s.nextId == old(s.nextId)
  {
    s.InitIfMissing();
    s.InitIfMissing();
  }

  /** A client run on a fresh store: initialisation twice, then tickets A, B
      and C created and the whole table listed. */
  method CreateAndListRun(at1: string, at2: string, at3: string) returns (listed: seq<Ticket>)
    ensures |listed| == 3
    ensures listed[0].number == 1 && listed[1].number == 2 && listed[2].number == 3
    ensures listed[0].id < listed[1].id < listed[2].id
    ensures listed[0].name == Some("A") && listed[1].name == Some("B") && listed[2].name == None
    ensures forall k :: 0 <= k < 3 ==> listed[k].status == Waiting
  {
    var s := new Store();
    s.InitIfMissing();
    s.InitIfMissing();
    assert s.counter == Some(1);
    var a := s.CreateTicket(Some("A"), at1);
    var b := s.CreateTicket(Some("B"), at2);
    var c := s.CreateTicket(None, at3);
    assert s.tickets == [a, b, c];
    listed := s.ListTickets(None);
    IdOrderedListingUnique(listed, [a, b, c]);
  }

  /** A fresh store holding three waiting tickets created one after another. */
  method ThreeWaiting(at1: string, at2: string, at3: string) returns (s: Store)
    ensures fresh(s) && s.Valid()
    ensures |s.tickets| == 3
    ensures s.tickets[0].number == 1 && s.tickets[1].number == 2 && s.tickets[2].number == 3
    ensures forall k :: 0 <= k < 3 ==> s.tickets[k].status == Waiting
  {
    s := new Store();
    var a := s.CreateTicket(None, at1);
    var b := s.CreateTicket(None, at2);
    var c := s.CreateTicket(None, at3);
    assert s.tickets == [a, b, c];
  }

  /** A client run: two serves on three waiting tickets, the third cancelled,
      a third serve. */
  method ServeInOrderRun(at1: string, at2: string, at3: string)
    returns (first: Option<Ticket>, second: Option<Ticket>, third: Option<Ticket>)
    ensures first.Some? && first.value.number == 1 && first.value.status == Served
    ensures second.Some? && second.value.number == 2 && second.value.status == Served
    ensures third == None
  {
    var s := ThreeWaiting(at1, at2, at3);
    ghost var t0 := s.tickets;
    assert FirstWaiting(t0) == Some(0);
    first := s.ServeNext();
    ghost var t1 := s.tickets;
    assert t1 == t0[0 := first.value];
    assert FirstWaiting(t1) == Some(1);
    second := s.ServeNext();
    ghost var t2 := s.tickets;
    assert t2 == t1[1 := second.value];
    ParseText(Cancelled);
    var ok := s.UpdateStatus(s.tickets[2].id, Cancelled.Text());
    SetStatusAt(t2, 2, Cancelled);
    assert FirstWaiting(s.tickets) == None;
    third := s.ServeNext();
  }
}
