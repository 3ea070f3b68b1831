// Ticket sales and spectator management: the VIP-first ticket queue kept in
// a fixed array of 100 slots, ticket processing, the sold-ticket count that
// caps purchases at the venue capacity, the ticket file's line format and the
// "T<nnn>" ticket numbering.

module Tickets {
  import opened Base

  /** Number of slots in the queue's array. */
  const Capacity: nat := 100

  /** Venue capacity: purchases stop once this many tickets are sold. */
  const MaxSpectators: nat := 50

  /** A ticket; `kind` is the ticket type ("VIP" or "Regular" when bought,
      any text when read from the file). */
  datatype Ticket = Ticket(ticketID: string, buyerName: string, kind: string, status: string)

  /** Statuses that enqueue refuses. */
  predicate Ignored(status: string) {
    status == "Cancelled" || status == "Rejected" || status == "Waiting"
  }

  /** Tickets that count as sold. */
  predicate IsSold(t: Ticket) {
    t.status == "Pending" || t.status == "Confirmed"
  }

  // ---------------------------------------------------------------------------
  // Where enqueue puts a ticket

  /** Start of the trailing run of "Regular" tickets: where a VIP ticket goes. */
  function VipSlot(q: seq<Ticket>): (p: nat)
    ensures p <= |q|
    ensures forall i :: p <= i < |q| ==> q[i].kind == "Regular"
    ensures p > 0 ==> q[p - 1].kind != "Regular"
  {
    if q != [] && q[|q| - 1].kind == "Regular" then VipSlot(q[..|q| - 1]) else |q|
  }

  /** The trailing Regular run is determined by the two facts VipSlot ensures. */
  lemma VipSlotUnique(q: seq<Ticket>, p: nat)
    requires p <= |q|
    requires forall i :: p <= i < |q| ==> q[i].kind == "Regular"
    requires p > 0 ==> q[p - 1].kind != "Regular"
    ensures p == VipSlot(q)
  {
  }

  /** The index the new ticket takes: VIP tickets move ahead of the trailing
      Regular run, every other ticket goes to the back. */
  function Position(q: seq<Ticket>, t: Ticket): (p: nat)
    ensures p <= |q|
  {
    if t.kind == "VIP" then VipSlot(q) else |q|
  }

  /** q with t at index p and the tickets from p on one place later. */
  function InsertAt(q: seq<Ticket>, p: nat, t: Ticket): (r: seq<Ticket>)
    requires p <= |q|
    ensures |r| == |q| + 1
  {
    seq(|q| + 1, i requires 0 <= i <= |q| => if i < p then q[i] else if i == p then t else q[i - 1])
  }

  lemma InsertAtSplit(q: seq<Ticket>, p: nat, t: Ticket)
    requires p <= |q|
    ensures InsertAt(q, p, t) == q[..p] + [t] + q[p..]
  {
  }

  /** A sequence that agrees with InsertAt(q, p, t) at every index is it. */
  lemma ShiftedIsInsert(q: seq<Ticket>, p: nat, t: Ticket, r: seq<Ticket>)
    requires p <= |q| && |r| == |q| + 1 && r[p] == t
    requires forall i :: 0 <= i < p ==> r[i] == q[i]
    requires forall i :: p < i <= |q| ==> r[i] == q[i - 1]
    ensures r == InsertAt(q, p, t)
  {
  }

  /** The queue after TicketQueue::enqueue(t) on a queue holding q. */
  function Enqueued(q: seq<Ticket>, t: Ticket): seq<Ticket> {
    if |q| >= Capacity || Ignored(t.status) then q
    else InsertAt(q, Position(q, t), t)
  }

  /** An accepted ticket grows the queue by one and keeps the others in their
      order; a non-VIP ticket goes to the back, a VIP ticket just before the
      trailing Regular run. A full queue or an ignored status changes nothing. */
  lemma EnqueueEffect(q: seq<Ticket>, t: Ticket)
    ensures |q| >= Capacity || Ignored(t.status) ==> Enqueued(q, t) == q
    ensures |q| < Capacity && !Ignored(t.status) ==>
              var p := Position(q, t);
              Enqueued(q, t) == q[..p] + [t] + q[p..] &&
              (t.kind != "VIP" ==> Enqueued(q, t) == q + [t]) &&
              (t.kind == "VIP" ==> (forall i :: p <= i < |q| ==> q[i].kind == "Regular") &&
                                   (p > 0 ==> q[p - 1].kind != "Regular"))
  {
    if |q| < Capacity && !Ignored(t.status) {
      InsertAtSplit(q, Position(q, t), t);
    }
  }

  /** No Regular ticket stands before a VIP ticket. */
  ghost predicate VipFirst(q: seq<Ticket>) {
    forall i, j :: 0 <= i < j < |q| && q[i].kind == "Regular" ==> q[j].kind != "VIP"
  }

  /** Every ticket is VIP or Regular, as purchaseTicket creates them. */
  ghost predicate TwoKinds(q: seq<Ticket>) {
    forall i :: 0 <= i < |q| ==> q[i].kind == "VIP" || q[i].kind == "Regular"
  }

  /** With only the two ticket types, enqueue keeps the VIP tickets ahead of
      the Regular ones. */
  lemma EnqueueKeepsVipFirst(q: seq<Ticket>, t: Ticket)
    requires VipFirst(q) && TwoKinds(q) && (t.kind == "VIP" || t.kind == "Regular")
    ensures VipFirst(Enqueued(q, t)) && TwoKinds(Enqueued(q, t))
  {
    if |q| < Capacity && !Ignored(t.status) {
      var p := Position(q, t);
      var r := InsertAt(q, p, t);
      if t.kind == "VIP" && p > 0 {
        assert q[p - 1].kind == "VIP";
      }
      assert forall i, j :: 0 <= i < j < |r| && r[i].kind == "Regular" ==> r[j].kind != "VIP";
      assert forall i :: 0 <= i < |r| ==> r[i].kind == "VIP" || r[i].kind == "Regular";
    }
  }

  /** With a third ticket type the ordering is lost: a VIP ticket enqueued
      behind a non-Regular ticket stays behind the Regular tickets before it. */
  lemma ThirdKindBreaksVipFirst()
    ensures var q := [Ticket("T001", "A", "Regular", "Pending"), Ticket("T002", "B", "Student", "Pending")];
            VipFirst(q) && !VipFirst(Enqueued(q, Ticket("T003", "C", "VIP", "Pending")))
  {
    var q := [Ticket("T001", "A", "Regular", "Pending"), Ticket("T002", "B", "Student", "Pending")];
    var t := Ticket("T003", "C", "VIP", "Pending");
    assert VipSlot(q) == 2;
    var r := Enqueued(q, t);
    assert r[0].kind == "Regular" && r[2].kind == "VIP";
  }

  /** No ticket in q has a status that enqueue refuses. */
  ghost predicate NoIgnored(q: seq<Ticket>) {
    forall i :: 0 <= i < |q| ==> !Ignored(q[i].status)
  }

  lemma EnqueueKeepsNoIgnored(q: seq<Ticket>, t: Ticket)
    requires NoIgnored(q)
    ensures NoIgnored(Enqueued(q, t))
  {
  }

  // ---------------------------------------------------------------------------
  // Counting tickets

  /** Number of tickets in q whose status is st. */
  function CountStatus(q: seq<Ticket>, st: string): (n: nat)
    ensures n <= |q|
  {
    if q == [] then 0
    else CountStatus(q[..|q| - 1], st) + (if q[|q| - 1].status == st then 1 else 0)
  }

  /** countTicketsSold: the Pending and the Confirmed tickets. */
  function Sold(q: seq<Ticket>): nat {
    CountStatus(q, "Pending") + CountStatus(q, "Confirmed")
  }

  lemma {:induction false} CountAppend(a: seq<Ticket>, b: seq<Ticket>, st: string)
    ensures CountStatus(a + b, st) == CountStatus(a, st) + CountStatus(b, st)
    decreases |b|
  {
    if b == [] {
      assert a + b == a;
    } else {
      var init := b[..|b| - 1];
      CountAppend(a, init, st);
      assert (a + b)[..|a + b| - 1] == a + init;
    }
  }

  lemma CountOne(t: Ticket, st: string)
    ensures CountStatus([t], st) == if t.status == st then 1 else 0
  {
    assert [t][..0] == [];
  }

  /** Sold tickets are counted once each, wherever they stand. */
  lemma SoldAppend(a: seq<Ticket>, b: seq<Ticket>)
    ensures Sold(a + b) == Sold(a) + Sold(b)
  {
    CountAppend(a, b, "Pending");
    CountAppend(a, b, "Confirmed");
  }

  /** Inserting t anywhere adds t's own count. */
  lemma CountInsert(q: seq<Ticket>, p: nat, t: Ticket, st: string)
    requires p <= |q|
    ensures CountStatus(InsertAt(q, p, t), st) == CountStatus(q, st) + (if t.status == st then 1 else 0)
  {
    InsertAtSplit(q, p, t);
    CountAppend(q[..p] + [t], q[p..], st);
    CountAppend(q[..p], [t], st);
    CountOne(t, st);
    CountAppend(q[..p], q[p..], st);
    assert q[..p] + q[p..] == q;
  }

  /** An accepted sold ticket raises the sold count by one; nothing else
      changes it. */
  lemma EnqueueSold(q: seq<Ticket>, t: Ticket)
    ensures Sold(Enqueued(q, t)) == Sold(q) + (if |q| < Capacity && !Ignored(t.status) && IsSold(t) then 1 else 0)
  {
    if |q| < Capacity && !Ignored(t.status) {
      CountInsert(q, Position(q, t), t, "Pending");
      CountInsert(q, Position(q, t), t, "Confirmed");
    }
  }

  // ---------------------------------------------------------------------------
  // Processing a ticket

  /** Index of the first Pending ticket, or |q| when there is none. */
  function FirstPending(q: seq<Ticket>): (k: nat)
    ensures k <= |q|
    ensures k < |q| ==> q[k].status == "Pending"
    ensures forall j :: 0 <= j < k ==> q[j].status != "Pending"
  {
    if q == [] then 0
    else if q[0].status == "Pending" then 0
    else 1 + FirstPending(q[1..])
  }

  /** The queue after processTicketEntry on a queue holding q. */
  function Processed(q: seq<Ticket>): seq<Ticket> {
    var k := FirstPending(q);
    if k == |q| then q else q[k := q[k].(status := "Confirmed")]
  }

  lemma {:induction false} NoPendingCount(q: seq<Ticket>)
    ensures FirstPending(q) == |q| <==> CountStatus(q, "Pending") == 0
    decreases |q|
  {
    if q != [] {
      var init := q[..|q| - 1];
      NoPendingCount(init);
      if FirstPending(q) == |q| {
        assert forall j :: 0 <= j < |init| ==> init[j] == q[j];
      } else {
        var k := FirstPending(q);
        if k < |init| {
          assert init[k] == q[k];
          assert FirstPending(init) <= k;
        }
      }
    }
  }

  /** Replacing one ticket changes the count by the two tickets' own counts. */
  lemma CountUpdate(q: seq<Ticket>, k: nat, x: Ticket, st: string)
    requires k < |q|
    ensures CountStatus(q[k := x], st) ==
            CountStatus(q, st) - (if q[k].status == st then 1 else 0) + (if x.status == st then 1 else 0)
  {
    var a, b := q[..k], q[k + 1..];
    assert q == a + [q[k]] + b;
    assert q[k := x] == a + [x] + b;
    CountAppend(a + [q[k]], b, st);
    CountAppend(a, [q[k]], st);
    CountAppend(a + [x], b, st);
    CountAppend(a, [x], st);
    CountOne(q[k], st);
    CountOne(x, st);
  }

  /** Processing confirms one pending ticket when there is one: the sold count
      stays, the pending count drops by one, and only that ticket changes. */
  lemma ProcessEffect(q: seq<Ticket>)
    ensures |Processed(q)| == |q| && Sold(Processed(q)) == Sold(q)
    ensures CountStatus(q, "Pending") == 0 ==> Processed(q) == q
    ensures CountStatus(q, "Pending") > 0 ==>
              CountStatus(Processed(q), "Pending") == CountStatus(q, "Pending") - 1 &&
              Processed(q)[FirstPending(q)] == q[FirstPending(q)].(status := "Confirmed") &&
              forall i :: 0 <= i < |q| && i != FirstPending(q) ==> Processed(q)[i] == q[i]
  {
    NoPendingCount(q);
    var k := FirstPending(q);
    if k < |q| {
      var x := q[k].(status := "Confirmed");
      CountUpdate(q, k, x, "Pending");
      CountUpdate(q, k, x, "Confirmed");
    }
  }

  /** What processTicketEntry reported. */
  datatype Processing = EmptyQueue | NothingPending | ConfirmedAt(index: nat)

  // ---------------------------------------------------------------------------
  // The ticket file: a header line, then ID,Name,Type,Status per ticket

  const TicketHeader: string := "TicketID,BuyerName,Type,Status"

  /** a followed by a comma and rest. */
  function Joined(a: string, rest: string): string {
    a + [','] + rest
  }

  /** One line of the ticket file. */
  function TicketLine(t: Ticket): string {
    Joined(t.ticketID, Joined(t.buyerName, Joined(t.kind, t.status)))
  }

  /** The lines after the header, in queue order. */
  function TicketLines(q: seq<Ticket>): (lines: seq<string>)
    ensures |lines| == |q|
  {
    if q == [] then [] else TicketLines(q[..|q| - 1]) + [TicketLine(q[|q| - 1])]
  }

  /** The first n comma-terminated fields of s, then the rest of s; None
      when s has fewer than n commas. Each field ends at the next comma
      found from just after the previous one. */
  function Fields(s: string, n: nat): (r: Option<seq<string>>)
    ensures r.Some? ==> |r.value| == n + 1
  {
    if n == 0 then Some([s])
    else
      var p := IndexOf(s, ',');
      if p == |s| then None
      else
        var more := Fields(s[p + 1..], n - 1);
        if more.None? then None else Some([s[..p]] + more.value)
  }

  /** The line split of loadFromFile: the ID, name and type end at the first
      three commas and the status is the rest. A line with fewer than three
      commas is skipped. */
  function SplitLine(line: string): Option<Ticket> {
    var f := Fields(line, 3);
    if f.None? then None else Some(Ticket(f.value[0], f.value[1], f.value[2], f.value[3]))
  }

  /** Number of commas in s. */
  function Commas(s: string): nat {
    if s == [] then 0 else (if s[0] == ',' then 1 else 0) + Commas(s[1..])
  }

  lemma {:induction false} CommasAfterFirst(s: string)
    ensures IndexOf(s, ',') == |s| ==> Commas(s) == 0
    ensures IndexOf(s, ',') < |s| ==> Commas(s) == 1 + Commas(s[IndexOf(s, ',') + 1..])
    decreases |s|
  {
    if s != [] && s[0] != ',' {
      var t := s[1..];
      CommasAfterFirst(t);
      if IndexOf(t, ',') < |t| {
        assert t[IndexOf(t, ',') + 1..] == s[IndexOf(s, ',') + 1..];
      }
    }
  }

  lemma {:induction false} FieldsNeedCommas(s: string, n: nat)
    ensures Fields(s, n).None? <==> Commas(s) < n
    decreases n
  {
    if n > 0 {
      CommasAfterFirst(s);
      var p := IndexOf(s, ',');
      if p == |s| {
        assert Fields(s, n).None? && Commas(s) == 0;
      } else {
        FieldsNeedCommas(s[p + 1..], n - 1);
        assert Fields(s, n).None? <==> Fields(s[p + 1..], n - 1).None?;
      }
    }
  }

  /** A line is skipped exactly when it has fewer than three commas. */
  lemma SplitNeedsThreeCommas(line: string)
    ensures SplitLine(line).None? <==> Commas(line) < 3
  {
    FieldsNeedCommas(line, 3);
  }

  /** Fields the file format can hold: the first three have no comma. */
  predicate Savable(t: Ticket) {
    ',' !in t.ticketID && ',' !in t.buyerName && ',' !in t.kind
  }

  /** No field holds a line break, so the written line stays one line of
      the file. */
  predicate OneLine(t: Ticket) {
    '\n' !in t.ticketID && '\n' !in t.buyerName && '\n' !in t.kind && '\n' !in t.status
  }

  /** The written line of such a ticket holds no line break. */
  lemma TicketLineOneLine(t: Ticket)
    requires OneLine(t)
    ensures '\n' !in TicketLine(t)
  {
  }

  lemma JoinedSplit(a: string, rest: string)
    requires ',' !in a
    ensures IndexOf(Joined(a, rest), ',') == |a|
    ensures Joined(a, rest)[..|a|] == a && Joined(a, rest)[|a| + 1..] == rest
  {
    var s := Joined(a, rest);
    assert s[|a|] == ',';
  }

  lemma FieldsOfJoined(a: string, rest: string, n: nat)
    requires ',' !in a && n > 0
    ensures Fields(Joined(a, rest), n) ==
            if Fields(rest, n - 1).None? then None else Some([a] + Fields(rest, n - 1).value)
  {
    JoinedSplit(a, rest);
  }

  /** Reading a written line gives the ticket back. */
  lemma SplitTicketLine(t: Ticket)
    requires Savable(t)
    ensures SplitLine(TicketLine(t)) == Some(t)
  {
    var r2 := Joined(t.kind, t.status);
    var r1 := Joined(t.buyerName, r2);
    FieldsOfJoined(t.kind, t.status, 1);
    FieldsOfJoined(t.buyerName, r2, 2);
    FieldsOfJoined(t.ticketID, r1, 3);
  }

  /** Fields joined back with commas between them. */
  function Rejoined(f: seq<string>): string
    requires f != []
  {
    if |f| == 1 then f[0] else Joined(f[0], Rejoined(f[1..]))
  }

  /** Rejoining the fields gives s back. */
  lemma {:induction false} FieldsRejoin(s: string, n: nat)
    requires Fields(s, n).Some?
    ensures Rejoined(Fields(s, n).value) == s
    decreases n
  {
    if n > 0 {
      var p := IndexOf(s, ',');
      FieldsRejoin(s[p + 1..], n - 1);
      var f := Fields(s, n).value;
      assert f[1..] == Fields(s[p + 1..], n - 1).value;
      SplitAt(s, p);
    }
  }

  /** The first n fields have no comma. */
  lemma {:induction false} FieldsCommaFree(s: string, n: nat)
    requires Fields(s, n).Some?
    ensures forall i :: 0 <= i < n ==> ',' !in Fields(s, n).value[i]
    decreases n
  {
    if n > 0 {
      var p := IndexOf(s, ',');
      FieldsCommaFree(s[p + 1..], n - 1);
      var f := Fields(s, n).value;
      assert f[1..] == Fields(s[p + 1..], n - 1).value;
      assert f[0] == s[..p];
    }
  }

  /** Every line that is not skipped is the written form of the ticket read. */
  lemma SplitIsTicketLine(line: string)
    requires SplitLine(line).Some?
    ensures Savable(SplitLine(line).value) && TicketLine(SplitLine(line).value) == line
  {
    FieldsRejoin(line, 3);
    FieldsCommaFree(line, 3);
    var f := Fields(line, 3).value;
    assert f[1..][1..] == f[2..] && f[2..][1..] == f[3..];
    assert Rejoined(f[3..]) == f[3];
    assert Rejoined(f[2..]) == Joined(f[2], f[3]);
    assert Rejoined(f[1..]) == Joined(f[1], Joined(f[2], f[3]));
    assert Rejoined(f) == Joined(f[0], Joined(f[1], Joined(f[2], f[3])));
  }

  /** The queue after loadFromFile's loop over rows, starting from q. */
  function LoadRows(q: seq<Ticket>, rows: seq<string>): seq<Ticket> {
    if rows == [] then q
    else
      var prev := LoadRows(q, rows[..|rows| - 1]);
      var t := SplitLine(rows[|rows| - 1]);
      if t.None? then prev else Enqueued(prev, t.value)
  }

  lemma LoadStep(q: seq<Ticket>, rows: seq<string>, k: nat)
    requires k < |rows|
    ensures SplitLine(rows[k]).None? ==> LoadRows(q, rows[..k + 1]) == LoadRows(q, rows[..k])
    ensures SplitLine(rows[k]).Some? ==>
              LoadRows(q, rows[..k + 1]) == Enqueued(LoadRows(q, rows[..k]), SplitLine(rows[k]).value)
  {
    TakeSnoc(rows, k);
    assert (rows[..k] + [rows[k]])[..k] == rows[..k];
  }

  /** Loading never brings in a ticket that enqueue refuses. */
  lemma {:induction false} LoadKeepsNoIgnored(q: seq<Ticket>, rows: seq<string>)
    requires NoIgnored(q)
    ensures NoIgnored(LoadRows(q, rows))
    decreases |rows|
  {
    if rows != [] {
      LoadKeepsNoIgnored(q, rows[..|rows| - 1]);
      var t := SplitLine(rows[|rows| - 1]);
      if t.Some? {
        EnqueueKeepsNoIgnored(LoadRows(q, rows[..|rows| - 1]), t.value);
      }
    }
  }

  /** Tickets the file holds faithfully and that enqueue takes back in the
      same order. */
  ghost predicate Reloadable(q: seq<Ticket>) {
    |q| <= Capacity && VipFirst(q) && NoIgnored(q) &&
    forall i :: 0 <= i < |q| ==> Savable(q[i]) && OneLine(q[i])
  }

  lemma ReloadableInit(q: seq<Ticket>)
    requires q != [] && Reloadable(q)
    ensures Reloadable(q[..|q| - 1])
  {
    var init := q[..|q| - 1];
    assert forall i :: 0 <= i < |init| ==> init[i] == q[i];
  }

  /** A saved queue whose VIP tickets come first loads back into an empty
      queue unchanged. */
  lemma {:induction false} SaveLoadRoundTrip(q: seq<Ticket>)
    requires Reloadable(q)
    ensures LoadRows([], TicketLines(q)) == q
    decreases |q|
  {
    if q != [] {
      var n := |q| - 1;
      var init, last := q[..n], q[n];
      ReloadableInit(q);
      SaveLoadRoundTrip(init);
      var lines := TicketLines(q);
      assert lines[..|lines| - 1] == TicketLines(init);
      SplitTicketLine(last);
      if last.kind == "VIP" && n > 0 {
        assert init[n - 1] == q[n - 1];
        VipSlotUnique(init, n);
      }
      assert Position(init, last) == n;
      InsertAtSplit(init, n, last);
      TakeSnoc(q, n);
      assert q[..n + 1] == q;
    }
  }

  // ---------------------------------------------------------------------------
  // The queue

  /** TicketQueue: tickets[0..size) is the queue, front first. */
  class TicketQueue {
    const tickets: array<Ticket>
    var size: int

    ghost predicate Valid()
      reads this
    {
      tickets.Length == Capacity && 0 <= size <= Capacity
    }

    /** The queued tickets, front first. */
    ghost function Contents(): seq<Ticket>
      reads this, tickets
      requires Valid()
    {
      tickets[..size]
    }

    constructor ()
      ensures Valid() && Contents() == [] && fresh(tickets)
    {
      tickets := new Ticket[Capacity](_ => Ticket([], [], [], []));
      size := 0;
    }

    /** enqueue: refuses when full or for an ignored status; otherwise a VIP
        ticket shifts the trailing Regular tickets one place back and takes
        the freed slot, any other ticket is appended. */
    method Enqueue(t: Ticket)
      requires Valid()
      modifies this, tickets
      ensures Valid() && Contents() == Enqueued(old(Contents()), t)
    {
      if size >= Capacity {
        return;
      }
      if Ignored(t.status) {
        return;
      }
      ghost var q := tickets[..size];
      var pos := size;
      while pos > 0 && tickets[pos - 1].kind == "Regular" && t.kind == "VIP"
        invariant 0 <= pos <= size < Capacity && tickets.Length == Capacity && |q| == size
        invariant t.kind != "VIP" ==> pos == size
        invariant forall i :: 0 <= i < pos ==> tickets[i] == q[i]
        invariant forall i :: pos < i <= size ==> tickets[i] == q[i - 1]
        invariant forall i :: pos <= i < size ==> q[i].kind == "Regular"
      {
        tickets[pos] := tickets[pos - 1];
        pos := pos - 1;
      }
      if t.kind == "VIP" {
        VipSlotUnique(q, pos);
      }
      tickets[pos] := t;
      size := size + 1;
      ShiftedIsInsert(q, pos, t, tickets[..size]);
    }

    /** processTicketEntry: confirms the first Pending ticket. */
    method ProcessTicketEntry() returns (outcome: Processing)
      requires Valid()
      modifies tickets
      ensures Valid() && Contents() == Processed(old(Contents()))
      ensures outcome == EmptyQueue <==> old(size) == 0
      ensures outcome == NothingPending <==> old(size) > 0 && CountStatus(old(Contents()), "Pending") == 0
      ensures outcome.ConfirmedAt? ==> outcome.index == FirstPending(old(Contents()))
    {
      NoPendingCount(Contents());
      if size == 0 {
        return EmptyQueue;
      }
      var i := 0;
      while i < size && tickets[i].status != "Pending"
        invariant 0 <= i <= size
        invariant forall j :: 0 <= j < i ==> tickets[j].status != "Pending"
      {
        i := i + 1;
      }
      if i == size {
        return NothingPending;
      }
      ghost var q := tickets[..size];
      assert FirstPending(q) == i by {
        assert forall j :: 0 <= j < i ==> q[j].status != "Pending";
      }
      tickets[i] := tickets[i].(status := "Confirmed");
      assert tickets[..size] == q[i := q[i].(status := "Confirmed")];
      outcome := ConfirmedAt(i);
    }

    /** countTicketsSold. */
    method CountTicketsSold() returns (count: int)
      requires Valid()
      ensures count == Sold(Contents())
    {
      count := 0;
      var i := 0;
      while i < size
        invariant 0 <= i <= size
        invariant count == Sold(tickets[..i])
      {
        assert tickets[..i + 1][..i] == tickets[..i];
        if tickets[i].status == "Pending" || tickets[i].status == "Confirmed" {
          count := count + 1;
        }
        i := i + 1;
      }
      assert tickets[..i] == tickets[..size];
    }

    /** saveToFile, as the lines it writes. */
    method SaveToFile() returns (lines: seq<string>)
      requires Valid()
      ensures lines == [TicketHeader] + TicketLines(Contents())
    {
      lines := [TicketHeader];
      var i := 0;
      while i < size
        invariant 0 <= i <= size
        invariant lines == [TicketHeader] + TicketLines(tickets[..i])
      {
        assert tickets[..i + 1][..i] == tickets[..i];
        lines := lines + [TicketLine(tickets[i])];
        i := i + 1;
      }
      assert tickets[..i] == tickets[..size];
    }

    /** loadFromFile: skips the header, then enqueues every row that splits;
        the queue is not emptied first. A file that cannot be opened changes
        nothing. */
    method LoadFromFile(file: Option<seq<string>>)
      requires Valid()
      modifies this, tickets
      ensures Valid()
      ensures file.None? ==> Contents() == old(Contents())
      ensures file.Some? ==> Contents() == LoadRows(old(Contents()), DataRows(file.value))
    {
      if file.None? {
        return;
      }
      var rows := DataRows(file.value);
      ghost var q := Contents();
      var k := 0;
      while k < |rows|
        invariant k <= |rows|
        invariant Valid() && Contents() == LoadRows(q, rows[..k])
      {
        var t := SplitLine(rows[k]);
        LoadStep(q, rows, k);
        if t.Some? {
          Enqueue(t.value);
        }
        k := k + 1;
      }
      assert rows[..k] == rows;
    }
  }

  // ---------------------------------------------------------------------------
  // Ticket numbering

  /** Text of the first field of the last row that has a comma, or "" when
      no row has one: the tempID of generateTicketID's scan. */
  function ScannedId(rows: seq<string>): string {
    if rows == [] then []
    else
      var line := rows[|rows| - 1];
      var pos := IndexOf(line, ',');
      if pos < |line| then line[..pos] else ScannedId(rows[..|rows| - 1])
  }

  /** The lastID the numbering restarts from: "T000" unless the file holds one. */
  function SeedId(file: Option<seq<string>>): string {
    if file.None? then "T000"
    else
      var tmp := ScannedId(DataRows(file.value));
      if tmp == [] then "T000" else tmp
  }

  /** The number read from lastID: stoi of what follows the 'T', and 0 when
      stoi throws or lastID is not of that form. */
  function Seed(lastID: string): int {
    if |lastID| > 1 && lastID[0] == 'T' then
      var v := Stoi(lastID[1..]);
      if v.Some? then v.value else 0
    else 0
  }

  function Zeros(k: nat): (z: string)
    ensures |z| == k && forall i :: 0 <= i < k ==> z[i] == '0'
  {
    seq(k, _ => '0')
  }

  /** "T" + std::string(3 - len, '0') + std::to_string(n). With more than
      three characters the length 3 - len wraps around as a size_t and the
      string constructor throws std::length_error: None. */
  function FormatId(n: int): Option<string> {
    var d := IntToString(n);
    if |d| > 3 then None else Some("T" + Zeros(3 - |d|) + d)
  }

  lemma {:induction false} ZerosValue(k: nat)
    ensures DigitsValue(Zeros(k)) == 0
    decreases k
  {
    if k > 0 {
      ZerosValue(k - 1);
      assert Zeros(k)[..k - 1] == Zeros(k - 1);
    }
  }

  /** Leading zeros do not change the value of a digit string. */
  lemma {:induction false} PaddedValue(k: nat, s: string)
    requires forall i :: 0 <= i < |s| ==> IsDigit(s[i])
    ensures DigitsValue(Zeros(k) + s) == DigitsValue(s)
    decreases |s|
  {
    if s == [] {
      assert Zeros(k) + s == Zeros(k);
      ZerosValue(k);
    } else {
      var u := Zeros(k) + s;
      PaddedValue(k, s[..|s| - 1]);
      assert u[..|u| - 1] == Zeros(k) + s[..|s| - 1];
    }
  }

  lemma {:induction false} NatToStringLength(n: nat)
    ensures n < 10 ==> |NatToString(n)| == 1
    ensures 10 <= n < 100 ==> |NatToString(n)| == 2
    ensures 100 <= n < 1000 ==> |NatToString(n)| == 3
    ensures n >= 1000 ==> |NatToString(n)| > 3
    decreases n
  {
    if n >= 10 {
      NatToStringLength(n / 10);
    }
  }

  /** std::stoi reads a zero-padded digit string as its digits' value. */
  lemma PaddedStoi(k: nat, d: string)
    requires d != [] && forall i :: 0 <= i < |d| ==> IsDigit(d[i])
    requires DigitsValue(d) <= IntMax
    ensures Stoi(Zeros(k) + d) == Some(DigitsValue(d) as int)
  {
    var u := Zeros(k) + d;
    assert forall i :: 0 <= i < |u| ==> IsDigit(u[i]);
    PaddedValue(k, d);
    StoiOfDigits(u);
  }

  /** A formatted ticket ID is "T" and three digits while the number is below
      1000, and the seed read back from it is the number; from 1000 on the
      formatting throws. */
  lemma FormatIdRoundTrip(n: int)
    ensures 0 <= n < 1000 ==> FormatId(n).Some? && |FormatId(n).value| == 4 && FormatId(n).value[0] == 'T' &&
                              (forall i :: 1 <= i < 4 ==> IsDigit(FormatId(n).value[i])) &&
                              Seed(FormatId(n).value) == n
    ensures n >= 1000 ==> FormatId(n).None?
  {
    if n >= 0 {
      NatToStringLength(n);
    }
    if 0 <= n < 1000 {
      var d := NatToString(n);
      var z := Zeros(3 - |d|);
      var id := "T" + z + d;
      assert FormatId(n) == Some(id);
      assert id[1..] == z + d;
      DigitsOfNat(n);
      PaddedStoi(3 - |d|, d);
    }
  }

  /** Distinct numbers below 1000 give distinct ticket IDs. */
  lemma FormatIdInjective(a: int, b: int)
    requires 0 <= a < 1000 && 0 <= b < 1000 && FormatId(a) == FormatId(b)
    ensures a == b
  {
    FormatIdRoundTrip(a);
    FormatIdRoundTrip(b);
  }

  /** The number the next generateTicketID call uses. */
  function NextNumber(last: int, file: Option<seq<string>>): int {
    (if last == 0 then Seed(SeedId(file)) else last) + 1
  }

  /** After a restart, numbering continues after the ID on the last line of
      the file. */
  lemma ResumeNumbering(lines: seq<string>, n: int, rest: string)
    requires lines != [] && 0 <= n < 1000
    ensures FormatId(n).Some?
    ensures NextNumber(0, Some(lines + [Joined(FormatId(n).value, rest)])) == n + 1
  {
    FormatIdRoundTrip(n);
    var id := FormatId(n).value;
    var all := lines + [Joined(id, rest)];
    JoinedSplit(id, rest);
    assert DataRows(all)[|DataRows(all)| - 1] == Joined(id, rest);
  }

  /** The global lastTicketNumber, as an object. */
  class TicketIds {
    var lastTicketNumber: int

    constructor ()
      ensures lastTicketNumber == 0
    {
      lastTicketNumber := 0;
    }

    /** generateTicketID: on the first call (the counter still 0) the counter
        is seeded from the last ID in the ticket file; then it is incremented
        and formatted. */
    method GenerateTicketID(file: Option<seq<string>>) returns (id: Option<string>)
      modifies this
      ensures lastTicketNumber == NextNumber(old(lastTicketNumber), file)
      ensures id == FormatId(lastTicketNumber)
    {
      if lastTicketNumber == 0 {
        var lastID := "T000";
        if file.Some? {
          var rows := DataRows(file.value);
          var tempID := "";
          var k := 0;
          while k < |rows|
            invariant k <= |rows|
            invariant tempID == ScannedId(rows[..k])
          {
            assert rows[..k + 1][..k] == rows[..k];
            var pos := IndexOf(rows[k], ',');
            if pos < |rows[k]| {
              tempID := rows[k][..pos];
            }
            k := k + 1;
          }
          assert rows[..k] == rows;
          if tempID != [] {
            lastID := tempID;
          }
        }
        if |lastID| > 1 && lastID[0] == 'T' {
          var v := Stoi(lastID[1..]);
          lastTicketNumber := if v.Some? then v.value else 0;
        }
      }
      lastTicketNumber := lastTicketNumber + 1;
      id := FormatId(lastTicketNumber);
    }
  }

  // ---------------------------------------------------------------------------
  // Purchase

  const FullMessage: string := "Sorry, the venue is at full capacity! No more tickets can be sold."

  /** The ticket purchaseTicket creates from the buyer's answers. */
  function NewTicket(id: string, buyerName: string, vip: bool): Ticket {
    Ticket(id, buyerName, if vip then "VIP" else "Regular", "Pending")
  }

  /** purchaseTicket with the buyer's name and type choice as parameters:
      refused at capacity; otherwise a fresh ID is drawn and the Pending
      ticket enqueued. None from the ID formatting is the length_error that
      ends the program, reported here as an error with nothing enqueued. */
  method PurchaseTicket(queue: TicketQueue, ids: TicketIds, file: Option<seq<string>>, buyerName: string, vip: bool)
    returns (r: Result<Ticket>)
    requires queue.Valid()
    modifies queue, queue.tickets, ids
    ensures queue.Valid()
    ensures Sold(old(queue.Contents())) >= MaxSpectators ==>
              r == Err(FullMessage) && queue.Contents() == old(queue.Contents()) &&
              ids.lastTicketNumber == old(ids.lastTicketNumber)
    ensures Sold(old(queue.Contents())) < MaxSpectators ==>
              ids.lastTicketNumber == NextNumber(old(ids.lastTicketNumber), file) &&
              (FormatId(ids.lastTicketNumber).None? ==> r.Err? && queue.Contents() == old(queue.Contents())) &&
              (FormatId(ids.lastTicketNumber).Some? ==>
                 r == Ok(NewTicket(FormatId(ids.lastTicketNumber).value, buyerName, vip)) &&
                 queue.Contents() == Enqueued(old(queue.Contents()), r.value))
  {
    var sold := queue.CountTicketsSold();
    if sold >= MaxSpectators {
      return Err(FullMessage);
    }
    var id := ids.GenerateTicketID(file);
    if id.None? {
      return Err("length_error");
    }
    var t := NewTicket(id.value, buyerName, vip);
    queue.Enqueue(t);
    r := Ok(t);
  }

  /** Purchases never take the sold count past the venue capacity. */
  lemma PurchaseWithinCapacity(q: seq<Ticket>, t: Ticket)
    requires Sold(q) < MaxSpectators
    ensures Sold(Enqueued(q, t)) <= MaxSpectators
  {
    EnqueueSold(q, t);
  }
}
