# Waiting-line ticket store, modelled in Dafny

The waiting-line service hands each visitor a numbered ticket. Staff serve tickets
in arrival order, and each ticket carries a status: `waiting`, `served` or
`cancelled`. Its core is `models.py`. That file keeps two pieces of persistent
state in SQLite:

- the `next_number` row of the `meta` table, a counter that hands out queue numbers;
- the `tickets` table, with one row per ticket holding `id`, `number`, `name`,
  `status` and `created_at`.

`models.dfy` models this state as the class `Models.Store` with three fields:

- `counter: Option<int>` is the `next_number` row. `None` means the row is absent.
- `nextId: int` is the id that SQLite's AUTOINCREMENT gives the next inserted row.
- `tickets: seq<Ticket>` is the table, kept in ascending id order.

Each SQL statement becomes the operation on these fields that it denotes:

- The filtered select becomes `FilterStatus`.
- The select of the lowest-id waiting row becomes `FirstWaiting`.
- The update of a status by id becomes `SetStatus`. `serve_next` and
  `update_status` both use it.

The store's object invariant is `Store.Valid()`, defined through `TableInvariant`.
It says:

- ids and queue numbers both rise strictly along the table;
- every id is below `nextId`;
- every number is below the stored counter;
- the table is empty while the counter row is absent.

Every mutating method preserves this invariant. Its `ensures` clauses state the
whole new state in terms of the old one. The pure functions and lemmas state what
the queries mean:

- the filter keeps exactly the rows with the given status, in id order;
- an id-ordered listing is determined by the rows it contains;
- the row served is the waiting ticket with the smallest id;
- a status update touches only the row with that id, and nothing when no row has it.

The status column holds text. The model stores it as the datatype `Status`.
`ParseStatus` recognises the three texts, and `ParseText` proves that the stored
text of every status parses back to that status. The list filter compares the
stored text with the caller's string, as the query does. An unknown filter string
therefore simply matches nothing.

Where the code and the design description disagree, the model follows the code:

- `update_status` on an id that no ticket has still reports success (`True`), and
  the table is unchanged. The design recommends a `NotFound` failure instead.
- An unknown status raises `ValueError` before the store is touched.

## Model

| member | source | states |
|---|---|---|
| Models.ParseStatus | models.py:95-96 | a status text is accepted exactly when it is `waiting`, `served` or `cancelled`, and is then the text of the status returned |
| Models.ParseText | models.py:95 | the stored text of every status is accepted and parses back to that same status |
| Models.FilterStatus | models.py:71-72 | the filtered rows are exactly the stored rows whose status text equals the filter, and the result is in ascending id order when the table is |
| Models.FirstWaiting | models.py:82-86 | no position is found exactly when no row is waiting; otherwise the position holds a waiting row and every earlier row is not waiting |
| Models.SetStatus | models.py:99 | the table keeps its length; every row keeps its id, number, name and creation time; a row's status becomes the new one exactly when its id matches |
| Models.OldestWaitingFirst | models.py:82 | in an id-ordered table, the row picked for serving has an id no larger than that of any waiting ticket (oldest first) |
| Models.SetStatusAt | models.py:87-90 | with unique ids, updating the id of the row at position i changes only that row, and only its status |
| Models.SetStatusMissingId | models.py:99-102 | an update for an id that no row has leaves the table exactly as it was |
| Models.SetStatusKeepsInvariant | models.py:94-102 | a status update preserves the ordering of ids and numbers and their bounds against the two counters |
| Models.IdOrderedListingUnique | models.py:72-74 | two id-ordered listings that contain the same rows are equal, so an ordered listing is fixed by its membership |
| Models.IdOrderIsNumberOrder | models.py:56-66 | in the stored table, a ticket with a smaller id always has a smaller queue number |
| Models.Store.constructor | models.py:19-33 | the freshly created tables: no counter row, an empty ticket table, and 1 as the first id |
| Models.Store.InitIfMissing | models.py:34 | the counter is seeded with 1 only when its row is absent; an existing counter and the table are left unchanged |
| Models.Store.NextNumber | models.py:38-54 | returns the stored counter, or 1 when the row is missing; leaves the counter at exactly the returned value plus one; the value exceeds every existing ticket number |
| Models.Store.CreateTicket | models.py:56-66 | appends exactly one waiting ticket carrying the allocated number, the given name and creation time, and a fresh id; returns that same row; the earlier rows are unchanged; the new id and number exceed every earlier one |
| Models.Store.ListTickets | models.py:68-77 | with a truthy filter, returns exactly the stored tickets with that status; otherwise returns every ticket; in ascending id order either way, with the store unchanged |
| Models.Store.ServeNext | models.py:79-92 | with no waiting ticket, returns None and changes nothing; otherwise marks only the lowest-id waiting ticket as served and returns that row with its new status |
| Models.Store.UpdateStatus | models.py:94-102 | an unknown status fails with ValueError and leaves the store untouched; otherwise the status of the rows with that id is overwritten and success is reported, even when no row has that id |
| Models.TwoAllocations | models.py:38-54 | two allocations in a row return two consecutive, distinct numbers |
| Models.InitTwice | models.py:34 | initialising twice leaves the counter where initialising once does |
| Models.CreateAndListRun | models.py:56-77 | on a fresh store, three creations receive the numbers 1, 2 and 3, and the full listing returns them in creation order, all waiting |
| Models.ThreeWaiting | models.py:56-66 | three creations on a fresh store yield three waiting tickets numbered 1, 2 and 3 |
| Models.ServeInOrderRun | models.py:79-102 | with three waiting tickets, two serves return tickets 1 and 2; once the third is cancelled, a further serve returns None |

## Left out

- Connection handling, row factories and the SQLite engine are not modelled (models.py:10-13). The store is the in-memory `Store` object.
- Table creation in `init_db_if_missing` and in `init_db.py` is not modelled. The model starts from the state just after the tables are created. Only the counter seed is modelled.
- The creation timestamp is not modelled. It comes from the wall clock, so `CreateTicket` takes it as an opaque `createdAt` parameter, and the model claims no order on it.
- The storage encoding of the counter is not modelled. The counter is stored as text and converted with `int(...)` and `str(...)`; the model keeps it as an integer. Text that does not hold an integer is not considered.
- Concurrency and atomicity across connections are not modelled, nor the two separate commits inside `get_next_number`. Each call is one sequential step, so the design's requirement that each ticket is served at most once under concurrent callers is not captured.
- Changes made to the database from outside these functions are not modelled. An example is deleting the counter row while tickets exist. Through the modelled operations the counter row is never absent while the table holds tickets.
- The HTTP layer in `index.py` is not modelled: routing, JSON mapping, status codes, static files and the choice of start-up routine. Its status check duplicates the one in `update_status`.
