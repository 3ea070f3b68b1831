// The player withdrawal manager: a roster of players and a schedule of
// matches, both kept as lists the manager walks and rewrites in place, a
// FIFO of withdrawn players, status transitions over the schedule (cancel,
// restore, validate, replace), the loaders of the two text files and the
// edit distance used by the fuzzy name search.

module Withdrawal {
  import opened Base

  datatype Player = Player(id: string, name: string, status: string, withdrawReason: string)

  datatype Match = Match(matchID: string, round: string, player1: string, player2: string,
                         date: string, status: string)

  // ---------------------------------------------------------------------------
  // PlayerQueue: a singly linked FIFO with front and rear pointers

  class QueueNode {
    const data: Player
    var next: QueueNode?

    constructor (data: Player)
      ensures this.data == data && next == null
    {
      this.data := data;
      next := null;
    }
  }

  class PlayerQueue {
    var front: QueueNode?
    var rear: QueueNode?
    ghost var Contents: seq<Player>
    ghost var Nodes: seq<QueueNode>
    ghost var Repr: set<object>

    /** Nodes is the chain from front to rear, rear ends it, and the nodes
        carry Contents in order. Front and rear are null exactly when the
        queue is empty. */
    ghost predicate Valid()
      reads this, Repr
    {
      && |Nodes| == |Contents|
      && (forall i :: 0 <= i < |Nodes| ==> Nodes[i] in Repr)
      && (if Nodes == [] then front == null && rear == null
          else front == Nodes[0] && rear == Nodes[|Nodes| - 1] && rear.next == null)
      && (forall i {:trigger Nodes[i].data} :: 0 <= i < |Nodes| ==> Nodes[i].data == Contents[i])
      && (forall i {:trigger Nodes[i].next} :: 0 <= i < |Nodes| - 1 ==> Nodes[i].next == Nodes[i + 1])
      && (forall i, j :: 0 <= i < j < |Nodes| ==> Nodes[i] != Nodes[j])
    }

    constructor ()
      ensures Valid() && fresh(Repr) && Contents == []
    {
      front, rear := null, null;
      Contents, Nodes, Repr := [], [], {};
    }

    /** isEmpty: the front pointer is null. */
    function IsEmpty(): (b: bool)
      requires Valid()
      reads this, Repr
      ensures b <==> Contents == []
    {
      front == null
    }

    /** enqueue: a new node after the rear. */
    method Enqueue(player: Player)
      requires Valid()
      modifies this, Repr
      ensures Valid() && fresh(Repr - old(Repr))
      ensures Contents == old(Contents) + [player]
    {
      var node := new QueueNode(player);
      if rear != null {
        rear.next := node;
      } else {
        front := node;
      }
      rear := node;
      Nodes := Nodes + [node];
      Contents := Contents + [player];
      Repr := Repr + {node};
    }

    /** dequeue: the oldest entry, or nothing (a null pointer) when empty. */
    method Dequeue() returns (player: Option<Player>)
      requires Valid()
      modifies this
      ensures Valid() && Repr == old(Repr)
      ensures old(Contents) == [] ==> player == None && Contents == []
      ensures old(Contents) != [] ==> player == Some(old(Contents)[0]) && Contents == old(Contents)[1..]
    {
      if front == null {
        return None;
      }
      var temp := front;
      player := Some(temp.data);
      front := front.next;
      if front == null {
        rear := null;
      }
      Nodes := Nodes[1..];
      Contents := Contents[1..];
    }
  }

  /** The queue hands entries back in the order they came in: enqueuing xs on
      a new queue and then dequeuing until it reports empty gives back xs. */
  method QueueIsFifo(xs: seq<Player>) returns (out: seq<Player>, last: Option<Player>)
    ensures out == xs && last == None
  {
    var q := new PlayerQueue();
    var i := 0;
    while i < |xs|
      invariant 0 <= i <= |xs|
      invariant q.Valid() && fresh(q) && fresh(q.Repr) && q.Contents == xs[..i]
    {
      q.Enqueue(xs[i]);
      assert xs[..i + 1] == xs[..i] + [xs[i]];
      i := i + 1;
    }
    assert xs[..i] == xs;
    out := [];
    while !q.IsEmpty()
      invariant q.Valid() && fresh(q) && out + q.Contents == xs
      decreases |q.Contents|
    {
      var p := q.Dequeue();
      out := out + [p.value];
    }
    last := q.Dequeue();
  }

  // ---------------------------------------------------------------------------
  // Roster lookups

  /** What a walk over the roster looks for. */
  datatype Query = NameIs(name: string) | IdIs(id: string) | ActiveWithId(id: string) | WithdrawnWithId(id: string)

  predicate Answers(p: Player, q: Query) {
    match q
    case NameIs(n) => p.name == n
    case IdIs(id) => p.id == id
    case ActiveWithId(id) => p.id == id && p.status == "Active"
    case WithdrawnWithId(id) => p.id == id && p.status == "Withdrawn"
  }

  /** Where a walk from the head stops: the first player that answers q, or
      |ps| when none does. */
  function FirstAnswer(ps: seq<Player>, q: Query): (k: nat)
    ensures k <= |ps|
    ensures k < |ps| ==> Answers(ps[k], q)
    ensures forall j :: 0 <= j < k ==> !Answers(ps[j], q)
  {
    if ps == [] then 0 else if Answers(ps[0], q) then 0 else 1 + FirstAnswer(ps[1..], q)
  }

  lemma FirstAnswerUnique(ps: seq<Player>, q: Query, k: nat)
    requires k <= |ps| && (k < |ps| ==> Answers(ps[k], q))
    requires forall j :: 0 <= j < k ==> !Answers(ps[j], q)
    ensures FirstAnswer(ps, q) == k
  {
  }

  /** getPlayerNameByID: the name of the first player with that id, or the id
      itself when there is none. */
  function NameById(ps: seq<Player>, id: string): string {
    var k := FirstAnswer(ps, IdIs(id));
    if k < |ps| then ps[k].name else id
  }

  /** getPlayerStatusTag: the walk goes on past players with that id that are
      not withdrawn, and stops at the first withdrawn one. */
  function StatusTag(ps: seq<Player>, id: string): string {
    var k := FirstAnswer(ps, WithdrawnWithId(id));
    if k == |ps| then ""
    else if ps[k].withdrawReason != [] then " (Withdrawn - " + ps[k].withdrawReason + ")"
    else " (Withdrawn)"
  }

  /** The status of the first player with that name; a name nobody has counts
      as "Active". */
  function StatusOf(ps: seq<Player>, name: string): string {
    var k := FirstAnswer(ps, NameIs(name));
    if k < |ps| then ps[k].status else "Active"
  }

  /** The replacement a withdrawn player gets: the first player with that id
      whose status is "Active". */
  function ReplacementFor(ps: seq<Player>, id: string): Option<Player> {
    var k := FirstAnswer(ps, ActiveWithId(id));
    if k < |ps| then Some(ps[k]) else None
  }

  lemma NameByIdFacts(ps: seq<Player>, id: string)
    ensures (forall i :: 0 <= i < |ps| ==> ps[i].id != id) ==> NameById(ps, id) == id
    ensures forall i :: 0 <= i < |ps| && ps[i].id == id && (forall j :: 0 <= j < i ==> ps[j].id != id) ==>
              NameById(ps, id) == ps[i].name
  {
    forall i | 0 <= i < |ps| && ps[i].id == id && (forall j :: 0 <= j < i ==> ps[j].id != id)
      ensures NameById(ps, id) == ps[i].name
    {
      FirstAnswerUnique(ps, IdIs(id), i);
    }
  }

  /** A tag is shown exactly when some player with that id is withdrawn, and
      it always names the withdrawal. The first such player decides the text:
      its reason follows " - " when it has one. */
  lemma StatusTagFacts(ps: seq<Player>, id: string)
    ensures StatusTag(ps, id) != "" <==> exists i :: 0 <= i < |ps| && ps[i].id == id && ps[i].status == "Withdrawn"
    ensures StatusTag(ps, id) != "" ==> StatusTag(ps, id)[..11] == " (Withdrawn"
    ensures forall i :: 0 <= i < |ps| && ps[i].id == id && ps[i].status == "Withdrawn" &&
                        (forall j :: 0 <= j < i ==> !(ps[j].id == id && ps[j].status == "Withdrawn")) ==>
              StatusTag(ps, id) == if ps[i].withdrawReason != [] then " (Withdrawn - " + ps[i].withdrawReason + ")"
                                   else " (Withdrawn)"
  {
    forall i | 0 <= i < |ps| && ps[i].id == id && ps[i].status == "Withdrawn" &&
               (forall j :: 0 <= j < i ==> !(ps[j].id == id && ps[j].status == "Withdrawn"))
      ensures FirstAnswer(ps, WithdrawnWithId(id)) == i
    {
      FirstAnswerUnique(ps, WithdrawnWithId(id), i);
    }
    var k := FirstAnswer(ps, WithdrawnWithId(id));
    if k < |ps| {
      assert Answers(ps[k], WithdrawnWithId(id));
      if ps[k].withdrawReason != [] {
        assert StatusTag(ps, id) == " (Withdrawn - " + ps[k].withdrawReason + ")";
      }
    } else {
      forall i | 0 <= i < |ps| ensures !(ps[i].id == id && ps[i].status == "Withdrawn") {
        assert !Answers(ps[i], WithdrawnWithId(id));
      }
    }
  }

  lemma StatusOfFacts(ps: seq<Player>, name: string)
    ensures (forall i :: 0 <= i < |ps| ==> ps[i].name != name) ==> StatusOf(ps, name) == "Active"
    ensures StatusOf(ps, name) == "Withdrawn" ==>
              exists i :: 0 <= i < |ps| && ps[i].name == name && ps[i].status == "Withdrawn"
  {
    var k := FirstAnswer(ps, NameIs(name));
    if k < |ps| {
      assert ps[k].name == name;
    }
  }

  // ---------------------------------------------------------------------------
  // Status transitions over the schedule

  /** The key (a name or an id) is in one of the match's player slots. */
  predicate InSlot(m: Match, key: string) {
    m.player1 == key || m.player2 == key
  }

  /** A match that is still to be played: "Upcoming" or "Updated". */
  predicate Playable(m: Match) {
    m.status == "Upcoming" || m.status == "Updated"
  }

  /** updateMatchSchedule, on one match. */
  function Cancelled(m: Match, name: string): Match {
    if InSlot(m, name) && Playable(m) then m.(status := "Cancelled") else m
  }

  function CancelAll(ms: seq<Match>, name: string): (r: seq<Match>)
    ensures |r| == |ms|
    ensures forall i :: 0 <= i < |ms| ==> r[i] == Cancelled(ms[i], name)
  {
    seq(|ms|, i requires 0 <= i < |ms| => Cancelled(ms[i], name))
  }

  /** How many matches updateMatchSchedule cancels. */
  function CancelCount(ms: seq<Match>, name: string): nat {
    if ms == [] then 0
    else CancelCount(ms[..|ms| - 1], name) + (if InSlot(ms[|ms| - 1], name) && Playable(ms[|ms| - 1]) then 1 else 0)
  }

  /** Number of matches with status s. */
  function StatusCount(ms: seq<Match>, s: string): nat {
    if ms == [] then 0
    else StatusCount(ms[..|ms| - 1], s) + (if ms[|ms| - 1].status == s then 1 else 0)
  }

  /** Cancelling sets "Cancelled" on exactly the playable matches of that
      name, leaves every other match as it was, and leaves that name no
      playable match. */
  lemma CancelEffect(ms: seq<Match>, name: string)
    ensures forall i :: 0 <= i < |ms| ==>
              (CancelAll(ms, name)[i] != ms[i] <==> InSlot(ms[i], name) && Playable(ms[i]))
    ensures forall i :: 0 <= i < |ms| && CancelAll(ms, name)[i] != ms[i] ==>
              CancelAll(ms, name)[i] == ms[i].(status := "Cancelled")
    ensures forall i :: 0 <= i < |ms| && InSlot(CancelAll(ms, name)[i], name) ==> !Playable(CancelAll(ms, name)[i])
  {
  }

  lemma CancelIdempotent(ms: seq<Match>, name: string)
    ensures CancelAll(CancelAll(ms, name), name) == CancelAll(ms, name)
  {
  }

  /** The count updateMatchSchedule reports is the number of matches that
      became "Cancelled". */
  lemma CancelCountIsNewlyCancelled(ms: seq<Match>, name: string)
    ensures CancelCount(ms, name) + StatusCount(ms, "Cancelled") == StatusCount(CancelAll(ms, name), "Cancelled")
  {
    CancelCountPointwise(ms, CancelAll(ms, name), name);
  }

  lemma {:induction false} CancelCountPointwise(ms: seq<Match>, cs: seq<Match>, name: string)
    requires |cs| == |ms|
    requires forall i :: 0 <= i < |ms| ==> cs[i] == Cancelled(ms[i], name)
    ensures CancelCount(ms, name) + StatusCount(ms, "Cancelled") == StatusCount(cs, "Cancelled")
    decreases |ms|
  {
    if ms != [] {
      var n := |ms| - 1;
      CancelCountPointwise(ms[..n], cs[..n], name);
      assert cs[n] == Cancelled(ms[n], name);
      if InSlot(ms[n], name) && Playable(ms[n]) {
        assert ms[n].status != "Cancelled" && cs[n].status == "Cancelled";
      } else {
        assert cs[n] == ms[n];
      }
    }
  }

  /** restoreMatchStatus, on one match. */
  function Restored(m: Match, key: string): Match {
    if InSlot(m, key) && m.status == "Cancelled" then m.(status := "Updated") else m
  }

  function RestoreAll(ms: seq<Match>, key: string): (r: seq<Match>)
    ensures |r| == |ms|
    ensures forall i :: 0 <= i < |ms| ==> r[i] == Restored(ms[i], key)
  {
    seq(|ms|, i requires 0 <= i < |ms| => Restored(ms[i], key))
  }

  /** Restoring turns exactly the cancelled matches with that key into
      "Updated" and touches nothing else. */
  lemma RestoreEffect(ms: seq<Match>, key: string)
    ensures forall i :: 0 <= i < |ms| ==>
              (RestoreAll(ms, key)[i] != ms[i] <==> InSlot(ms[i], key) && ms[i].status == "Cancelled")
    ensures forall i :: 0 <= i < |ms| && RestoreAll(ms, key)[i] != ms[i] ==>
              RestoreAll(ms, key)[i] == ms[i].(status := "Updated")
    ensures forall i :: 0 <= i < |ms| && InSlot(ms[i], key) ==> RestoreAll(ms, key)[i].status != "Cancelled"
  {
  }

  /** Under one key, restoring after cancelling reopens, as "Updated", every
      match the cancel took out. */
  lemma RestoreAfterCancel(ms: seq<Match>, key: string)
    ensures forall i :: 0 <= i < |ms| && InSlot(ms[i], key) && Playable(ms[i]) ==>
              RestoreAll(CancelAll(ms, key), key)[i] == ms[i].(status := "Updated")
    ensures forall i :: 0 <= i < |ms| && !InSlot(ms[i], key) ==> RestoreAll(CancelAll(ms, key), key)[i] == ms[i]
  {
  }

  /** A match validateMatchStatuses cancels: a player slot names a withdrawn
      player, by the first roster entry with that name. */
  predicate Withdraws(ps: seq<Player>, m: Match) {
    StatusOf(ps, m.player1) == "Withdrawn" || StatusOf(ps, m.player2) == "Withdrawn"
  }

  function Validated(ps: seq<Player>, m: Match): Match {
    if Withdraws(ps, m) && Playable(m) then m.(status := "Cancelled") else m
  }

  function ValidateAll(ps: seq<Player>, ms: seq<Match>): (r: seq<Match>)
    ensures |r| == |ms|
    ensures forall i :: 0 <= i < |ms| ==> r[i] == Validated(ps, ms[i])
  {
    seq(|ms|, i requires 0 <= i < |ms| => Validated(ps, ms[i]))
  }

  /** Validation cancels a match iff it is playable and has a withdrawn
      player; afterwards no playable match has one. */
  lemma ValidateEffect(ps: seq<Player>, ms: seq<Match>)
    ensures forall i :: 0 <= i < |ms| ==>
              (ValidateAll(ps, ms)[i] != ms[i] <==> Withdraws(ps, ms[i]) && Playable(ms[i]))
    ensures forall i :: 0 <= i < |ms| && ValidateAll(ps, ms)[i] != ms[i] ==>
              ValidateAll(ps, ms)[i] == ms[i].(status := "Cancelled")
    ensures forall i :: 0 <= i < |ms| && Playable(ValidateAll(ps, ms)[i]) ==> !Withdraws(ps, ValidateAll(ps, ms)[i])
  {
  }

  lemma ValidateIdempotent(ps: seq<Player>, ms: seq<Match>)
    ensures ValidateAll(ps, ValidateAll(ps, ms)) == ValidateAll(ps, ms)
  {
  }

  /** The replacement loop of addReplacementPlayer changes this match. */
  predicate Replaces(m: Match, w: string, r: string) {
    m.status == "Cancelled" && ((m.player1 == w && m.player2 != r) || (m.player2 == w && m.player1 != r))
  }

  function Replaced(m: Match, w: string, r: string): Match {
    if m.status != "Cancelled" then m
    else if m.player1 == w && m.player2 != r then m.(player1 := r, status := "Updated")
    else if m.player2 == w && m.player1 != r then m.(player2 := r, status := "Updated")
    else m
  }

  function ReplaceAll(ms: seq<Match>, w: string, r: string): (out: seq<Match>)
    ensures |out| == |ms|
    ensures forall i :: 0 <= i < |ms| ==> out[i] == Replaced(ms[i], w, r)
  {
    seq(|ms|, i requires 0 <= i < |ms| => Replaced(ms[i], w, r))
  }

  /** Only cancelled matches change; the withdrawn name goes out of player1
      first, else out of player2, never so as to pair the replacement with
      itself; a changed match becomes "Updated". */
  lemma ReplaceEffect(ms: seq<Match>, w: string, r: string)
    ensures forall i :: 0 <= i < |ms| && !Replaces(ms[i], w, r) ==> ReplaceAll(ms, w, r)[i] == ms[i]
    ensures forall i :: 0 <= i < |ms| && Replaces(ms[i], w, r) && ms[i].player1 == w ==>
              ReplaceAll(ms, w, r)[i] == ms[i].(player1 := r, status := "Updated")
    ensures forall i :: 0 <= i < |ms| && Replaces(ms[i], w, r) && ms[i].player1 != w ==>
              ReplaceAll(ms, w, r)[i] == ms[i].(player2 := r, status := "Updated")
    ensures forall i :: 0 <= i < |ms| && Replaces(ms[i], w, r) ==>
              ReplaceAll(ms, w, r)[i].player1 != ReplaceAll(ms, w, r)[i].player2
  {
  }

  /** The updated flag: some match changed. */
  lemma ReplaceChangesIff(ms: seq<Match>, w: string, r: string)
    ensures (exists i :: 0 <= i < |ms| && Replaces(ms[i], w, r)) <==> ReplaceAll(ms, w, r) != ms
  {
    if exists i :: 0 <= i < |ms| && Replaces(ms[i], w, r) {
      var i :| 0 <= i < |ms| && Replaces(ms[i], w, r);
      assert ReplaceAll(ms, w, r)[i].status != ms[i].status;
    }
  }

  lemma ReplaceIdempotent(ms: seq<Match>, w: string, r: string)
    ensures ReplaceAll(ReplaceAll(ms, w, r), w, r) == ReplaceAll(ms, w, r)
  {
  }

  // ---------------------------------------------------------------------------
  // addReplacementPlayer

  /** The withdrawn players in roster order: what the queue is filled with. */
  function WithdrawnPlayers(ps: seq<Player>): (ws: seq<Player>)
    ensures |ws| <= |ps|
    ensures forall p :: p in ws ==> p in ps && p.status == "Withdrawn"
    ensures forall p :: p in ps && p.status == "Withdrawn" ==> p in ws
  {
    if ps == [] then []
    else WithdrawnPlayers(ps[..|ps| - 1]) + (if ps[|ps| - 1].status == "Withdrawn" then [ps[|ps| - 1]] else [])
  }

  lemma WithdrawnStep(ps: seq<Player>, k: nat)
    requires k < |ps|
    ensures WithdrawnPlayers(ps[..k + 1]) ==
            WithdrawnPlayers(ps[..k]) + (if ps[k].status == "Withdrawn" then [ps[k]] else [])
  {
    assert ps[..k + 1][..k] == ps[..k];
  }

  /** One withdrawn player handled with the id typed for it: "0" skips, an id
      without an active player is refused, otherwise the replacement runs. */
  function ReplaceStep(ps: seq<Player>, ms: seq<Match>, w: Player, rid: string): seq<Match> {
    if rid == "0" then ms
    else
      match ReplacementFor(ps, rid)
      case None => ms
      case Some(r) => ReplaceAll(ms, w.name, r.name)
  }

  /** The queue drained in order, ids[k] answering for ws[k]. */
  function ReplaceRound(ps: seq<Player>, ms: seq<Match>, ws: seq<Player>, ids: seq<string>): seq<Match>
    requires |ids| == |ws|
    decreases |ws|
  {
    if ws == [] then ms else ReplaceRound(ps, ReplaceStep(ps, ms, ws[0], ids[0]), ws[1..], ids[1..])
  }

  /** Over a whole round, only cancelled matches change, each into an
      "Updated" one, and no match is left pairing a player with itself that
      did not already. */
  lemma {:induction false} ReplaceRoundEffect(ps: seq<Player>, ms: seq<Match>, ws: seq<Player>, ids: seq<string>)
    requires |ids| == |ws|
    ensures |ReplaceRound(ps, ms, ws, ids)| == |ms|
    ensures forall i :: 0 <= i < |ms| && ms[i].status != "Cancelled" ==> ReplaceRound(ps, ms, ws, ids)[i] == ms[i]
    ensures forall i :: 0 <= i < |ms| && ReplaceRound(ps, ms, ws, ids)[i] != ms[i] ==>
              ReplaceRound(ps, ms, ws, ids)[i].status == "Updated"
    decreases |ws|
  {
    if ws != [] {
      var next := ReplaceStep(ps, ms, ws[0], ids[0]);
      assert |next| == |ms|;
      assert forall i :: 0 <= i < |ms| && ms[i].status != "Cancelled" ==> next[i] == ms[i];
      assert forall i :: 0 <= i < |ms| && next[i] != ms[i] ==> next[i].status == "Updated";
      ReplaceRoundEffect(ps, next, ws[1..], ids[1..]);
    }
  }

  // ---------------------------------------------------------------------------
  // modifyPlayerStatus, after the prompts

  datatype StatusChange = PlayerNotFound | AlreadySet | WithdrawalDeclined | InvalidChoice | Changed

  datatype Roster = Roster(players: seq<Player>, matches: seq<Match>)

  /** The reason menu: 1 to 5, anything else is "Other". */
  function ReasonFor(choice: int): string {
    if choice == 1 then "Injury"
    else if choice == 2 then "Personal Reason"
    else if choice == 3 then "Disciplinary Action"
    else if choice == 4 then "Scheduling Conflict"
    else "Other"
  }

  /** The id is in a slot of a match still to be played. */
  predicate HasPlayable(ms: seq<Match>, id: string) {
    exists i :: 0 <= i < |ms| && InSlot(ms[i], id) && Playable(ms[i])
  }

  /** What a status change with these answers comes to: choice 1 sets
      Active, choice 2 sets Withdrawn (asking for confirmation when the id
      has a match to play). */
  function ChangeOutcome(ps: seq<Player>, ms: seq<Match>, id: string, choice: int, confirmed: bool): StatusChange {
    var k := FirstAnswer(ps, IdIs(id));
    if k == |ps| then PlayerNotFound
    else if (choice == 1 && ps[k].status == "Active") || (choice == 2 && ps[k].status == "Withdrawn") then AlreadySet
    else if choice == 1 then Changed
    else if choice == 2 then (if HasPlayable(ms, id) && !confirmed then WithdrawalDeclined else Changed)
    else InvalidChoice
  }

  /** The roster and schedule after a change: reactivation restores the
      schedule by id, withdrawal cancels it by name, then the schedule is
      validated against the new roster. */
  function AfterChange(ps: seq<Player>, ms: seq<Match>, id: string, choice: int, reasonChoice: int): Roster
    requires FirstAnswer(ps, IdIs(id)) < |ps|
  {
    var k := FirstAnswer(ps, IdIs(id));
    if choice == 1 then
      var roster := ps[k := ps[k].(status := "Active", withdrawReason := "")];
      Roster(roster, ValidateAll(roster, RestoreAll(ms, id)))
    else
      var roster := ps[k := ps[k].(withdrawReason := ReasonFor(reasonChoice), status := "Withdrawn")];
      Roster(roster, ValidateAll(roster, CancelAll(ms, ps[k].name)))
  }

  /** A change sets the chosen status on the player with that id, and only on
      it, and leaves no playable match with a withdrawn player. */
  lemma AfterChangeEffect(ps: seq<Player>, ms: seq<Match>, id: string, choice: int, reasonChoice: int, confirmed: bool)
    requires ChangeOutcome(ps, ms, id, choice, confirmed) == Changed
    ensures FirstAnswer(ps, IdIs(id)) < |ps|
    ensures |AfterChange(ps, ms, id, choice, reasonChoice).players| == |ps|
    ensures AfterChange(ps, ms, id, choice, reasonChoice).players[FirstAnswer(ps, IdIs(id))].status ==
              (if choice == 1 then "Active" else "Withdrawn")
    ensures forall j :: 0 <= j < |ps| && j != FirstAnswer(ps, IdIs(id)) ==>
              AfterChange(ps, ms, id, choice, reasonChoice).players[j] == ps[j]
    ensures forall i :: 0 <= i < |AfterChange(ps, ms, id, choice, reasonChoice).matches| &&
                        Playable(AfterChange(ps, ms, id, choice, reasonChoice).matches[i]) ==>
              !Withdraws(AfterChange(ps, ms, id, choice, reasonChoice).players,
                         AfterChange(ps, ms, id, choice, reasonChoice).matches[i])
  {
    var k := FirstAnswer(ps, IdIs(id));
    var after := AfterChange(ps, ms, id, choice, reasonChoice);
    if choice == 1 {
      ValidateEffect(after.players, RestoreAll(ms, id));
    } else {
      ValidateEffect(after.players, CancelAll(ms, ps[k].name));
    }
  }

  /** Withdrawal cancels by name while the schedule's display reads player
      ids from the slots: with ids in the slots, withdrawing a player cancels
      nothing and the validation (by name as well) keeps the match open. */
  lemma WithdrawalMissesIdSlots()
    ensures ChangeOutcome([Player("P01", "Ann", "Active", ""), Player("P02", "Bob", "Active", "")],
                          [Match("M1", "Qualifier", "P01", "P02", "2025-01-01", "Upcoming")], "P01", 2, true) == Changed
    ensures AfterChange([Player("P01", "Ann", "Active", ""), Player("P02", "Bob", "Active", "")],
                        [Match("M1", "Qualifier", "P01", "P02", "2025-01-01", "Upcoming")], "P01", 2, 1).matches ==
              [Match("M1", "Qualifier", "P01", "P02", "2025-01-01", "Upcoming")]
  {
    var ps := [Player("P01", "Ann", "Active", ""), Player("P02", "Bob", "Active", "")];
    var ms := [Match("M1", "Qualifier", "P01", "P02", "2025-01-01", "Upcoming")];
    assert FirstAnswer(ps, IdIs("P01")) == 0;
    assert InSlot(ms[0], "P01") && Playable(ms[0]);
    var roster := ps[0 := ps[0].(withdrawReason := "Injury", status := "Withdrawn")];
    assert CancelAll(ms, "Ann") == ms;
    assert FirstAnswer(roster, NameIs("P01")) == 2;
    assert FirstAnswer(roster, NameIs("P02")) == 2;
    assert ValidateAll(roster, ms) == ms;
  }

  /** Reactivation restores by id: with names in the slots, a match the
      withdrawal cancelled stays cancelled after the player is active again. */
  lemma ReactivationMissesNameSlots()
    ensures AfterChange([Player("P01", "Ann", "Active", ""), Player("P02", "Bob", "Active", "")],
                        [Match("M1", "Qualifier", "Ann", "Bob", "2025-01-01", "Upcoming")], "P01", 2, 1) ==
              Roster([Player("P01", "Ann", "Withdrawn", "Injury"), Player("P02", "Bob", "Active", "")],
                     [Match("M1", "Qualifier", "Ann", "Bob", "2025-01-01", "Cancelled")])
    ensures AfterChange([Player("P01", "Ann", "Withdrawn", "Injury"), Player("P02", "Bob", "Active", "")],
                        [Match("M1", "Qualifier", "Ann", "Bob", "2025-01-01", "Cancelled")], "P01", 1, 0).matches ==
              [Match("M1", "Qualifier", "Ann", "Bob", "2025-01-01", "Cancelled")]
  {
    var ps := [Player("P01", "Ann", "Active", ""), Player("P02", "Bob", "Active", "")];
    var ms := [Match("M1", "Qualifier", "Ann", "Bob", "2025-01-01", "Upcoming")];
    var out := [Player("P01", "Ann", "Withdrawn", "Injury"), Player("P02", "Bob", "Active", "")];
    var cancelled := [Match("M1", "Qualifier", "Ann", "Bob", "2025-01-01", "Cancelled")];
    assert FirstAnswer(ps, IdIs("P01")) == 0;
    assert ps[0 := ps[0].(withdrawReason := "Injury", status := "Withdrawn")] == out;
    assert CancelAll(ms, "Ann") == cancelled;
    assert ValidateAll(out, cancelled) == cancelled;
    assert FirstAnswer(out, IdIs("P01")) == 0;
    var back := out[0 := out[0].(status := "Active", withdrawReason := "")];
    assert back == ps;
    assert RestoreAll(cancelled, "P01") == cancelled;
    assert ValidateAll(ps, cancelled) == cancelled;
  }

  // ---------------------------------------------------------------------------
  // The text files

  /** std::remove then erase: s without any c. */
  function Erase(s: string, c: char): (r: string)
    ensures c !in r
    ensures |r| <= |s|
    ensures forall x :: x in r ==> x in s
  {
    if s == [] then [] else (if s[0] == c then [] else [s[0]]) + Erase(s[1..], c)
  }

  lemma {:induction false} EraseAbsent(s: string, c: char)
    requires c !in s
    ensures Erase(s, c) == s
  {
    if s != [] {
      EraseAbsent(s[1..], c);
      assert [s[0]] + s[1..] == s;
    }
  }

  /** extractWithdrawReason: the text strictly between the first '(' and the
      first ')', when both are there in that order; otherwise "". */
  function ExtractWithdrawReason(s: string): (r: string)
    ensures ')' !in r && |r| <= |s|
  {
    var start := IndexOf(s, '(');
    var end := IndexOf(s, ')');
    if start < |s| && end < |s| && end > start then s[start + 1..end] else ""
  }

  /** The reason written between parentheses comes back, when nothing before
      it is a parenthesis and it has no closing one. */
  lemma ExtractBetween(pre: string, reason: string, post: string)
    requires '(' !in pre && ')' !in pre && ')' !in reason
    ensures ExtractWithdrawReason(pre + "(" + reason + ")" + post) == reason
  {
    var s := pre + "(" + reason + ")" + post;
    assert s[|pre|] == '(';
    assert forall j :: 0 <= j < |pre| ==> s[j] == pre[j];
    assert IndexOf(s, '(') == |pre|;
    assert s[|pre| + 1 + |reason|] == ')';
    assert forall j :: |pre| < j < |pre| + 1 + |reason| ==> s[j] == reason[j - |pre| - 1];
    assert IndexOf(s, ')') == |pre| + 1 + |reason|;
    assert s[|pre| + 1..|pre| + 1 + |reason|] == reason;
  }

  lemma ExtractWithoutParentheses(s: string)
    ensures ('(' !in s || ')' !in s) ==> ExtractWithdrawReason(s) == ""
  {
  }

  /** Both parentheses present, but the first ')' comes before the first '(':
      the reason is "" too. */
  lemma ExtractReversed(s: string)
    requires IndexOf(s, ')') < IndexOf(s, '(') <= |s|
    ensures ExtractWithdrawReason(s) == ""
  {
  }

  /** A loaded player's fields: the id, the name and the raw status. The
      status loses every '\r' and '\n'; one that mentions "Withdrawn" becomes
      exactly "Withdrawn" and keeps the parenthesised reason. */
  function Normalised(id: string, name: string, rawStatus: string): Player {
    var status := Erase(Erase(rawStatus, '\r'), '\n');
    if Contains(status, "Withdrawn") then Player(id, name, "Withdrawn", ExtractWithdrawReason(status))
    else Player(id, name, status, "")
  }

  /** The status a loaded player ends up with. */
  predicate NormalStatus(p: Player) {
    '\r' !in p.status && '\n' !in p.status && (Contains(p.status, "Withdrawn") ==> p.status == "Withdrawn")
  }

  lemma NormalisedStatus(id: string, name: string, rawStatus: string)
    ensures NormalStatus(Normalised(id, name, rawStatus))
    ensures Normalised(id, name, rawStatus).status != "Withdrawn" ==> Normalised(id, name, rawStatus).withdrawReason == ""
  {
  }

  /** One line of player_list.txt: "id, name, status", with the status of a
      withdrawn player followed by " (reason)". */
  function StatusText(p: Player): string {
    if p.status == "Withdrawn" then p.status + " (" + p.withdrawReason + ")" else p.status
  }

  function PlayerLine(p: Player): string {
    Field(p.id, Field(p.name, StatusText(p)))
  }

  /** loadPlayers on one line: the id up to the comma, then past blanks the
      name up to the next comma, then past blanks the rest as the status. */
  function ReadPlayer(line: string): Player {
    var id := GetLine(Open(line), ',', []);
    var name := GetLine(SkipWs(id.0), ',', []);
    var status := GetLine(SkipWs(name.0), '\n', []);
    Normalised(id.1, name.1, status.1)
  }

  /** ss >> std::ws then getline up to the comma, on " a, rest". */
  lemma WsFieldRead(a: string, rest: string)
    requires ',' !in a && (a == [] || !IsSpace(a[0]))
    ensures GetLine(SkipWs(Open(" " + Field(a, rest))), ',', []) == (Open(" " + rest), a)
  {
    var s := Field(a, rest);
    assert s == a + [','] + (" " + rest);
    assert s[0] == (if a == [] then ',' else a[0]);
    assert (" " + s)[1..] == s;
    assert SkipSpaces(s) == s;
    assert SkipWs(Open(" " + s)) == Open(s);
    FieldRead(a, rest, []);
  }

  /** ss >> std::ws then getline to the end, on " s". */
  lemma WsLastRead(s: string)
    requires '\n' !in s && (s == [] || !IsSpace(s[0]))
    ensures GetLine(SkipWs(Open(" " + s)), '\n', []).1 == s
  {
    assert (" " + s)[1..] == s;
    assert SkipSpaces(s) == s;
    if s != [] {
      assert SkipWs(Open(" " + s)) == Open(s);
      GetLineLast(s, []);
    }
  }

  /** Neither a blank first character nor a line break. */
  predicate Plain(s: string) {
    '\n' !in s && '\r' !in s && (s == [] || !IsSpace(s[0]))
  }

  /** A player that updatePlayerFile writes and loadPlayers reads back. */
  predicate Storable(p: Player) {
    && ',' !in p.id && ',' !in p.name && Plain(p.name) && Plain(p.status)
    && (if p.status == "Withdrawn" then Plain(p.withdrawReason) && ')' !in p.withdrawReason
        else !Contains(p.status, "Withdrawn") && p.withdrawReason == "")
  }

  /** The three reads of loadPlayers give back the fields updatePlayerFile
      wrote. */
  lemma ReadPlayerFields(p: Player)
    requires Storable(p)
    ensures ReadPlayer(PlayerLine(p)) == Normalised(p.id, p.name, StatusText(p))
  {
    var st := StatusText(p);
    assert '\n' !in st && (st == [] || !IsSpace(st[0]));
    FieldRead(p.id, Field(p.name, st), []);
    WsFieldRead(p.name, st);
    WsLastRead(st);
  }

  /** A string that starts with the needle contains it. */
  lemma ContainsPrefix(needle: string, rest: string)
    ensures Contains(needle + rest, needle)
  {
    assert (needle + rest)[..|needle|] == needle;
  }

  /** The normalisation keeps the status text of a storable player. */
  lemma NormalisedStatusText(p: Player)
    requires Storable(p)
    ensures Normalised(p.id, p.name, StatusText(p)) == p
  {
    var st := StatusText(p);
    assert '\n' !in st && '\r' !in st;
    EraseAbsent(st, '\r');
    EraseAbsent(st, '\n');
    if p.status == "Withdrawn" {
      WithdrawnText(p.status, p.withdrawReason);
    }
  }

  /** The text of a withdrawn player's status, s followed by " (reason)",
      is read back as containing s, with the reason. */
  lemma WithdrawnText(s: string, reason: string)
    requires '(' !in s && ')' !in s && ')' !in reason
    ensures Contains(s + " (" + reason + ")", s)
    ensures ExtractWithdrawReason(s + " (" + reason + ")") == reason
  {
    var x := " (" + reason + ")";
    assert s + " (" + reason + ")" == s + x;
    ContainsPrefix(s, x);
    IndexOfAppend(s, x, '(');
    IndexOfAppend(s, x, ')');
    OpeningParen(reason);
    ClosingParen(reason);
    assert (s + x)[|s| + 2..|s| + 2 + |reason|] == x[2..2 + |reason|];
    assert x[2..2 + |reason|] == reason;
  }

  lemma OpeningParen(reason: string)
    ensures IndexOf(" (" + reason + ")", '(') == 1
  {
  }

  lemma ClosingParen(reason: string)
    requires ')' !in reason
    ensures IndexOf(" (" + reason + ")", ')') == 2 + |reason|
  {
    assert " (" + reason + ")" == " (" + (reason + ")");
    IndexOfAppend(" (", reason + ")", ')');
    IndexOfAppend(reason, ")", ')');
  }

  /** Past a prefix without c, the first c is found in the rest. */
  lemma {:induction false} IndexOfAppend(a: string, b: string, c: char)
    requires c !in a
    ensures IndexOf(a + b, c) == |a| + IndexOf(b, c)
  {
    if a == [] {
      assert a + b == b;
    } else {
      assert (a + b)[0] == a[0] && (a + b)[1..] == a[1..] + b;
      IndexOfAppend(a[1..], b, c);
    }
  }

  /** Loading reads back the line updatePlayerFile wrote. */
  lemma PlayerLineRoundTrip(p: Player)
    requires Storable(p)
    ensures ReadPlayer(PlayerLine(p)) == p
  {
    ReadPlayerFields(p);
    NormalisedStatusText(p);
  }

  /** One line of schedule.txt: "id, round, player1, player2, date, status". */
  function ScheduleLine(m: Match): string {
    Field(m.matchID, Field(m.round, Field(m.player1, Field(m.player2, Field(m.date, m.status)))))
  }

  /** loadSchedule on one line: the match id up to the comma, then each field
      past blanks up to the next comma, and the status to the end. */
  function ReadMatch(line: string): Match {
    var id := GetLine(Open(line), ',', []);
    var round := GetLine(SkipWs(id.0), ',', []);
    ReadMatchRest(id.1, round.1, round.0)
  }

  function ReadMatchRest(id: string, round: string, st: Stream): Match {
    var p1 := GetLine(SkipWs(st), ',', []);
    var p2 := GetLine(SkipWs(p1.0), ',', []);
    var date := GetLine(SkipWs(p2.0), ',', []);
    var status := GetLine(SkipWs(date.0), '\n', []);
    Match(id, round, p1.1, p2.1, date.1, status.1)
  }

  /** A match that updateScheduleFile writes and loadSchedule reads back. */
  predicate Schedulable(m: Match) {
    && ',' !in m.matchID && ',' !in m.round && ',' !in m.player1 && ',' !in m.player2 && ',' !in m.date
    && Plain(m.round) && Plain(m.player1) && Plain(m.player2) && Plain(m.date) && '\n' !in m.status
    && (m.status == [] || !IsSpace(m.status[0]))
  }

  lemma ScheduleLineRoundTrip(m: Match)
    requires Schedulable(m)
    ensures ReadMatch(ScheduleLine(m)) == m
  {
    var tail := Field(m.player1, Field(m.player2, Field(m.date, m.status)));
    FieldRead(m.matchID, Field(m.round, tail), []);
    WsFieldRead(m.round, tail);
    WsFieldRead(m.player1, Field(m.player2, Field(m.date, m.status)));
    WsFieldRead(m.player2, Field(m.date, m.status));
    WsFieldRead(m.date, m.status);
    WsLastRead(m.status);
  }

  /** A file's rows loaded by prepending each to acc: the last row ends up
      first. */
  function Prepended<T>(rows: seq<string>, read: string -> T, acc: seq<T>): seq<T>
    decreases |rows|
  {
    if rows == [] then acc else [read(rows[|rows| - 1])] + Prepended(rows[..|rows| - 1], read, acc)
  }

  lemma PrependedStep<T>(rows: seq<string>, k: nat, read: string -> T, acc: seq<T>)
    requires k < |rows|
    ensures Prepended(rows[..k + 1], read, acc) == [read(rows[k])] + Prepended(rows[..k], read, acc)
  {
    assert rows[..k + 1][..k] == rows[..k];
  }

  /** The loaded list holds the rows in reverse order, then what was there. */
  lemma {:induction false} PrependedOrder<T>(rows: seq<string>, read: string -> T, acc: seq<T>)
    ensures |Prepended(rows, read, acc)| == |rows| + |acc|
    ensures forall i :: 0 <= i < |rows| ==> Prepended(rows, read, acc)[i] == read(rows[|rows| - 1 - i])
    ensures forall j :: 0 <= j < |acc| ==> Prepended(rows, read, acc)[|rows| + j] == acc[j]
    decreases |rows|
  {
    if rows != [] {
      var n := |rows| - 1;
      PrependedOrder(rows[..n], read, acc);
      var r := Prepended(rows, read, acc);
      assert r == [read(rows[n])] + Prepended(rows[..n], read, acc);
      forall i | 1 <= i <= n
        ensures r[i] == read(rows[n - i])
      {
        assert r[i] == Prepended(rows[..n], read, acc)[i - 1];
        assert rows[..n][n - 1 - (i - 1)] == rows[n - i];
      }
    }
  }

  /** The lines updatePlayerFile writes after its header, one per player. */
  function PlayerLines(ps: seq<Player>): (lines: seq<string>)
    ensures |lines| == |ps|
    ensures forall i :: 0 <= i < |ps| ==> lines[i] == PlayerLine(ps[i])
  {
    seq(|ps|, i requires 0 <= i < |ps| => PlayerLine(ps[i]))
  }

  /** Rows that each read back as the matching entry of xs load as xs
      reversed. */
  lemma PrependedReverses<T>(rows: seq<string>, read: string -> T, xs: seq<T>)
    requires |rows| == |xs|
    requires forall i :: 0 <= i < |rows| ==> read(rows[i]) == xs[i]
    ensures Prepended(rows, read, []) == Reverse(xs)
  {
    PrependedOrder(rows, read, []);
  }

  /** Saving a roster and loading it into an empty list gives the roster
      back reversed. */
  lemma SaveLoadReverses(ps: seq<Player>)
    requires forall i :: 0 <= i < |ps| ==> Storable(ps[i])
    ensures Prepended(PlayerLines(ps), ReadPlayer, []) == Reverse(ps)
  {
    var lines := PlayerLines(ps);
    forall i | 0 <= i < |ps|
      ensures ReadPlayer(lines[i]) == ps[i]
    {
      PlayerLineRoundTrip(ps[i]);
    }
    PrependedReverses(lines, ReadPlayer, ps);
  }

  /** Every player loaded from a file has a normalised status. */
  lemma LoadedNormal(rows: seq<string>, ps: seq<Player>)
    requires forall p :: p in ps ==> NormalStatus(p)
    ensures forall p :: p in Prepended(rows, ReadPlayer, ps) ==> NormalStatus(p)
  {
    PrependedOrder(rows, ReadPlayer, ps);
    var r := Prepended(rows, ReadPlayer, ps);
    forall p | p in r ensures NormalStatus(p) {
      var i :| 0 <= i < |r| && r[i] == p;
      if i >= |rows| {
        assert p == ps[i - |rows|];
      } else {
        var line := rows[|rows| - 1 - i];
        var id := GetLine(Open(line), ',', []);
        var name := GetLine(SkipWs(id.0), ',', []);
        var status := GetLine(SkipWs(name.0), '\n', []);
        NormalisedStatus(id.1, name.1, status.1);
      }
    }
  }

  // ---------------------------------------------------------------------------
  // Levenshtein distance, compared without case

  function Min(x: int, y: int): int {
    if y < x then y else x
  }

  /** The distance between a[..i] and b[..j]. */
  function Dist(a: string, b: string, i: nat, j: nat): nat
    requires i <= |a| && j <= |b|
    decreases i + j
  {
    if i == 0 then j
    else if j == 0 then i
    else if ToLower(a[i - 1]) == ToLower(b[j - 1]) then Dist(a, b, i - 1, j - 1)
    else 1 + Min(Min(Dist(a, b, i - 1, j), Dist(a, b, i, j - 1)), Dist(a, b, i - 1, j - 1))
  }

  function Levenshtein(a: string, b: string): nat {
    Dist(a, b, |a|, |b|)
  }

  /** The distance lies between the difference of the lengths and the
      longer length. */
  lemma {:induction false} DistBounds(a: string, b: string, i: nat, j: nat)
    requires i <= |a| && j <= |b|
    ensures Dist(a, b, i, j) <= (if i < j then j else i)
    ensures (if i < j then j - i else i - j) <= Dist(a, b, i, j)
    decreases i + j
  {
    if i > 0 && j > 0 {
      DistBounds(a, b, i - 1, j - 1);
      if ToLower(a[i - 1]) != ToLower(b[j - 1]) {
        DistBounds(a, b, i - 1, j);
        DistBounds(a, b, i, j - 1);
      }
    }
  }

  lemma {:induction false} DistSymmetric(a: string, b: string, i: nat, j: nat)
    requires i <= |a| && j <= |b|
    ensures Dist(a, b, i, j) == Dist(b, a, j, i)
    decreases i + j
  {
    if i > 0 && j > 0 {
      DistSymmetric(a, b, i - 1, j - 1);
      if ToLower(a[i - 1]) != ToLower(b[j - 1]) {
        DistSymmetric(a, b, i - 1, j);
        DistSymmetric(a, b, i, j - 1);
      }
    }
  }

  lemma {:induction false} DistSelf(a: string, i: nat)
    requires i <= |a|
    ensures Dist(a, a, i, i) == 0
  {
    if i > 0 {
      DistSelf(a, i - 1);
    }
  }

  /** The two words agree once both are lowered. */
  predicate SameFolded(a: string, a2: string) {
    |a| == |a2| && forall k :: 0 <= k < |a| ==> ToLower(a[k]) == ToLower(a2[k])
  }

  /** Words that agree up to case are at the same distance from any word. */
  lemma {:induction false} DistFolded(a: string, a2: string, b: string, i: nat, j: nat)
    requires SameFolded(a, a2) && i <= |a| && j <= |b|
    ensures Dist(a2, b, i, j) == Dist(a, b, i, j)
    decreases i + j
  {
    if i > 0 && j > 0 {
      DistFolded(a, a2, b, i - 1, j - 1);
      DistFolded(a, a2, b, i - 1, j);
      DistFolded(a, a2, b, i, j - 1);
      DistFoldedStep(a, a2, b, i, j);
    }
  }

  /** One step of DistFolded: equal distances for the three smaller pairs
      give equal distances for i and j. */
  lemma DistFoldedStep(a: string, a2: string, b: string, i: nat, j: nat)
    requires SameFolded(a, a2) && 0 < i <= |a| && 0 < j <= |b|
    requires Dist(a2, b, i - 1, j - 1) == Dist(a, b, i - 1, j - 1)
    requires Dist(a2, b, i - 1, j) == Dist(a, b, i - 1, j)
    requires Dist(a2, b, i, j - 1) == Dist(a, b, i, j - 1)
    ensures Dist(a2, b, i, j) == Dist(a, b, i, j)
  {
    assert ToLower(a2[i - 1]) == ToLower(a[i - 1]);
  }

  /** Comparing without case: lowering a word keeps its distances. */
  lemma DistLower(a: string, b: string)
    ensures Dist(Lower(a), b, |a|, |b|) == Dist(a, b, |a|, |b|)
  {
    assert SameFolded(a, Lower(a));
    DistFolded(a, Lower(a), b, |a|, |b|);
  }

  lemma LevenshteinFacts(a: string, b: string)
    ensures Levenshtein(a, "") == |a| && Levenshtein("", b) == |b|
    ensures Levenshtein(a, a) == 0
    ensures Levenshtein(a, b) == Levenshtein(b, a)
    ensures Levenshtein(a, b) <= (if |a| < |b| then |b| else |a|)
    ensures Levenshtein(Lower(a), b) == Levenshtein(a, b)
  {
    DistSelf(a, |a|);
    DistSymmetric(a, b, |a|, |b|);
    DistBounds(a, b, |a|, |b|);
    DistLower(a, b);
  }

  /** levenshteinDistance: the table dp[101][101], row 0 and column 0 first,
      then row by row. The fixed table holds words of up to 100 characters. */
  method LevenshteinDistance(a: string, b: string) returns (d: int)
    requires |a| <= 100 && |b| <= 100
    ensures d == Levenshtein(a, b)
  {
    var lenA, lenB := |a|, |b|;
    var dp := new int[101, 101]((i, j) => 0);
    for i := 0 to lenA + 1
      invariant forall x :: 0 <= x < i ==> dp[x, 0] == x
    {
      dp[i, 0] := i;
    }
    for j := 0 to lenB + 1
      invariant forall x :: 0 <= x <= lenA ==> dp[x, 0] == x
      invariant forall y :: 0 <= y < j ==> dp[0, y] == y
    {
      dp[0, j] := j;
    }
    for i := 1 to lenA + 1
      invariant forall x, y {:trigger dp[x, y]} :: 0 <= x < i && 0 <= y <= lenB ==> dp[x, y] == Dist(a, b, x, y)
      invariant forall x :: i <= x <= lenA ==> dp[x, 0] == x
    {
      FillRow(dp, a, b, i);
    }
    d := dp[lenA, lenB];
  }

  /** Row i of the table, from the rows above it. */
  method FillRow(dp: array2<int>, a: string, b: string, i: nat)
    requires dp.Length0 == 101 && dp.Length1 == 101 && |a| <= 100 && |b| <= 100
    requires 1 <= i <= |a|
    requires forall x, y {:trigger dp[x, y]} :: 0 <= x < i && 0 <= y <= |b| ==> dp[x, y] == Dist(a, b, x, y)
    requires dp[i, 0] == i
    modifies dp
    ensures forall x, y {:trigger dp[x, y]} :: 0 <= x <= i && 0 <= y <= |b| ==> dp[x, y] == Dist(a, b, x, y)
    ensures forall x, y :: 0 <= x < 101 && x != i && 0 <= y < 101 ==> dp[x, y] == old(dp[x, y])
  {
    for j := 1 to |b| + 1
      invariant forall y {:trigger dp[i, y]} :: 0 <= y < j ==> dp[i, y] == Dist(a, b, i, y)
      invariant forall x, y :: 0 <= x < 101 && x != i && 0 <= y < 101 ==> dp[x, y] == old(dp[x, y])
    {
      var v;
      if ToLower(a[i - 1]) == ToLower(b[j - 1]) {
        v := dp[i - 1, j - 1];
      } else {
        v := 1 + Min(Min(dp[i - 1, j], dp[i, j - 1]), dp[i - 1, j - 1]);
      }
      assert v == Dist(a, b, i, j);
      dp[i, j] := v;
    }
  }

  /** toLower: tolower on every character, in place on a copy. */
  method ToLowerString(str: string) returns (result: string)
    ensures result == Lower(str)
  {
    result := str;
    for i := 0 to |str|
      invariant |result| == |str|
      invariant forall j :: 0 <= j < i ==> result[j] == ToLower(str[j])
      invariant forall j :: i <= j < |str| ==> result[j] == str[j]
    {
      result := result[i := ToLower(result[i])];
    }
  }

  // ---------------------------------------------------------------------------
  // The manager

  class TournamentSystem {
    var players: seq<Player>
    var matches: seq<Match>

    constructor ()
      ensures players == [] && matches == []
    {
      players := [];
      matches := [];
    }

    /** The walk from the head of the roster. */
    method FindPlayer(q: Query) returns (k: nat)
      ensures k == FirstAnswer(players, q)
    {
      k := 0;
      while k < |players| && !Answers(players[k], q)
        invariant 0 <= k <= |players|
        invariant forall j :: 0 <= j < k ==> !Answers(players[j], q)
      {
        k := k + 1;
      }
      FirstAnswerUnique(players, q, k);
    }

    method GetPlayerNameByID(id: string) returns (name: string)
      ensures name == NameById(players, id)
    {
      var k := FindPlayer(IdIs(id));
      name := if k < |players| then players[k].name else id;
    }

    method GetPlayerStatusTag(playerID: string) returns (tag: string)
      ensures tag == StatusTag(players, playerID)
    {
      var k := FindPlayer(WithdrawnWithId(playerID));
      if k == |players| {
        return "";
      }
      var p := players[k];
      tag := if p.withdrawReason != [] then " (Withdrawn - " + p.withdrawReason + ")" else " (Withdrawn)";
    }

    /** updateMatchSchedule: cancels the playable matches with that name in a
        slot and reports how many. */
    method UpdateMatchSchedule(playerName: string) returns (cancelledCount: int)
      modifies this
      ensures players == old(players)
      ensures matches == CancelAll(old(matches), playerName)
      ensures cancelledCount == CancelCount(old(matches), playerName)
    {
      ghost var ms := matches;
      cancelledCount := 0;
      var k := 0;
      while k < |matches|
        invariant 0 <= k <= |matches| == |ms| && players == old(players)
        invariant forall i :: 0 <= i < k ==> matches[i] == Cancelled(ms[i], playerName)
        invariant forall i :: k <= i < |ms| ==> matches[i] == ms[i]
        invariant cancelledCount == CancelCount(ms[..k], playerName)
      {
        assert ms[..k + 1][..k] == ms[..k];
        var m := matches[k];
        if InSlot(m, playerName) && Playable(m) {
          matches := matches[k := m.(status := "Cancelled")];
          cancelledCount := cancelledCount + 1;
        }
        k := k + 1;
      }
      assert ms[..k] == ms;
    }

    /** restoreMatchStatus: reopens, as "Updated", the cancelled matches with
        that id in a slot. */
    method RestoreMatchStatus(playerID: string)
      modifies this
      ensures players == old(players)
      ensures matches == RestoreAll(old(matches), playerID)
    {
      ghost var ms := matches;
      var k := 0;
      while k < |matches|
        invariant 0 <= k <= |matches| == |ms| && players == old(players)
        invariant forall i :: 0 <= i < k ==> matches[i] == Restored(ms[i], playerID)
        invariant forall i :: k <= i < |ms| ==> matches[i] == ms[i]
      {
        var m := matches[k];
        if InSlot(m, playerID) && m.status == "Cancelled" {
          matches := matches[k := m.(status := "Updated")];
        }
        k := k + 1;
      }
    }

    /** The status the validation walk reads for a name. */
    method StatusByName(name: string) returns (status: string)
      ensures status == StatusOf(players, name)
    {
      var k := FindPlayer(NameIs(name));
      status := if k < |players| then players[k].status else "Active";
    }

    /** validateMatchStatuses: cancels every playable match one of whose
        players is withdrawn. */
    method ValidateMatchStatuses()
      modifies this
      ensures players == old(players)
      ensures matches == ValidateAll(old(players), old(matches))
    {
      ghost var ms := matches;
      var k := 0;
      while k < |matches|
        invariant 0 <= k <= |matches| == |ms| && players == old(players)
        invariant forall i :: 0 <= i < k ==> matches[i] == Validated(players, ms[i])
        invariant forall i :: k <= i < |ms| ==> matches[i] == ms[i]
      {
        var m := matches[k];
        var status1 := StatusByName(m.player1);
        var status2 := StatusByName(m.player2);
        if (status1 == "Withdrawn" || status2 == "Withdrawn") && Playable(m) {
          matches := matches[k := m.(status := "Cancelled")];
        }
        k := k + 1;
      }
    }

    /** The match walk of addReplacementPlayer for one withdrawn player and
        its replacement; updated tells whether a match changed. */
    method ReplaceInMatches(withdrawnName: string, replacementName: string) returns (updated: bool)
      modifies this
      ensures players == old(players)
      ensures matches == ReplaceAll(old(matches), withdrawnName, replacementName)
      ensures updated <==> exists i :: 0 <= i < |old(matches)| && Replaces(old(matches)[i], withdrawnName, replacementName)
    {
      ghost var ms := matches;
      updated := false;
      var k := 0;
      while k < |matches|
        invariant 0 <= k <= |matches| == |ms| && players == old(players)
        invariant forall i :: 0 <= i < k ==> matches[i] == Replaced(ms[i], withdrawnName, replacementName)
        invariant forall i :: k <= i < |ms| ==> matches[i] == ms[i]
        invariant updated <==> exists i :: 0 <= i < k && Replaces(ms[i], withdrawnName, replacementName)
      {
        var m := matches[k];
        if m.status == "Cancelled" {
          var changed := false;
          if m.player1 == withdrawnName && m.player2 != replacementName {
            m := m.(player1 := replacementName);
            changed := true;
          } else if m.player2 == withdrawnName && m.player1 != replacementName {
            m := m.(player2 := replacementName);
            changed := true;
          }
          if changed {
            matches := matches[k := m.(status := "Updated")];
            updated := true;
          }
        }
        k := k + 1;
      }
    }

    /** The replacement after the prompt: "0" skips, an id without an active
        player is refused. */
    method ReplacePlayer(w: Player, replacementID: string)
      modifies this
      ensures players == old(players)
      ensures matches == ReplaceStep(old(players), old(matches), w, replacementID)
    {
      if replacementID == "0" {
        return;
      }
      var r := FindPlayer(ActiveWithId(replacementID));
      if r == |players| {
        return;
      }
      var updated := ReplaceInMatches(w.name, players[r].name);
    }

    /** One pass of addReplacementPlayer: the withdrawn players queued in
        roster order, then each dequeued and answered with the next of
        replacementIDs. The result says whether there was anybody to
        process. */
    method AddReplacementPlayer(replacementIDs: seq<string>) returns (anyWithdrawn: bool)
      requires |replacementIDs| == |WithdrawnPlayers(players)|
      modifies this
      ensures players == old(players)
      ensures anyWithdrawn <==> WithdrawnPlayers(old(players)) != []
      ensures matches == ReplaceRound(old(players), old(matches), WithdrawnPlayers(old(players)), replacementIDs)
    {
      var withdrawnQueue, withdrawnCount := QueueWithdrawn();
      if withdrawnCount == 0 {
        return false;
      }
      DrainQueue(withdrawnQueue, replacementIDs);
      return true;
    }

    /** The first walk of addReplacementPlayer: every withdrawn player, in
        roster order, into a new queue. */
    method QueueWithdrawn() returns (withdrawnQueue: PlayerQueue, withdrawnCount: nat)
      ensures withdrawnQueue.Valid() && fresh(withdrawnQueue) && fresh(withdrawnQueue.Repr)
      ensures withdrawnQueue.Contents == WithdrawnPlayers(players)
      ensures withdrawnCount == |withdrawnQueue.Contents|
    {
      withdrawnQueue := new PlayerQueue();
      withdrawnCount := 0;
      var k := 0;
      while k < |players|
        invariant 0 <= k <= |players|
        invariant withdrawnQueue.Valid() && fresh(withdrawnQueue) && fresh(withdrawnQueue.Repr)
        invariant withdrawnQueue.Contents == WithdrawnPlayers(players[..k])
        invariant withdrawnCount == |withdrawnQueue.Contents|
      {
        WithdrawnStep(players, k);
        if players[k].status == "Withdrawn" {
          withdrawnQueue.Enqueue(players[k]);
          withdrawnCount := withdrawnCount + 1;
        }
        k := k + 1;
      }
      assert players[..k] == players;
    }

    /** The second walk: each withdrawn player dequeued and answered with the
        next id. */
    method DrainQueue(withdrawnQueue: PlayerQueue, replacementIDs: seq<string>)
      requires withdrawnQueue.Valid() && this !in withdrawnQueue.Repr
      requires |replacementIDs| == |withdrawnQueue.Contents|
      modifies this, withdrawnQueue
      ensures players == old(players)
      ensures matches == ReplaceRound(old(players), old(matches), old(withdrawnQueue.Contents), replacementIDs)
    {
      ghost var ws := withdrawnQueue.Contents;
      var answered := 0;
      while !withdrawnQueue.IsEmpty()
        invariant withdrawnQueue.Valid() && this !in withdrawnQueue.Repr
        invariant 0 <= answered <= |ws| && withdrawnQueue.Contents == ws[answered..]
        invariant players == old(players)
        invariant ReplaceRound(players, matches, ws[answered..], replacementIDs[answered..]) ==
                  ReplaceRound(players, old(matches), ws, replacementIDs)
        decreases |withdrawnQueue.Contents|
      {
        var w := withdrawnQueue.Dequeue();
        assert ws[answered..][1..] == ws[answered + 1..];
        assert replacementIDs[answered..][1..] == replacementIDs[answered + 1..];
        ReplacePlayer(w.value, replacementIDs[answered]);
        answered := answered + 1;
      }
    }

    /** The scan for a playable match of the id, before a withdrawal. */
    method HasPlayableMatch(playerID: string) returns (found: bool)
      ensures found == HasPlayable(matches, playerID)
    {
      var k := 0;
      while k < |matches|
        invariant 0 <= k <= |matches|
        invariant forall i :: 0 <= i < k ==> !(InSlot(matches[i], playerID) && Playable(matches[i]))
      {
        if InSlot(matches[k], playerID) && Playable(matches[k]) {
          return true;
        }
        k := k + 1;
      }
      return false;
    }

    /** modifyPlayerStatus once the player id, the menu choice, the reason
        choice and the confirmation have been read. */
    method ModifyPlayerStatus(playerID: string, choice: int, reasonChoice: int, confirmed: bool)
      returns (outcome: StatusChange)
      modifies this
      ensures outcome == ChangeOutcome(old(players), old(matches), playerID, choice, confirmed)
      ensures outcome == Changed ==>
                FirstAnswer(old(players), IdIs(playerID)) < |old(players)| &&
                Roster(players, matches) == AfterChange(old(players), old(matches), playerID, choice, reasonChoice)
      ensures outcome != Changed ==> players == old(players) && matches == old(matches)
    {
      var k := FindPlayer(IdIs(playerID));
      if k == |players| {
        return PlayerNotFound;
      }
      var target := players[k];
      if (choice == 1 && target.status == "Active") || (choice == 2 && target.status == "Withdrawn") {
        return AlreadySet;
      }
      if choice == 1 {
        players := players[k := target.(status := "Active", withdrawReason := "")];
        RestoreMatchStatus(playerID);
      } else if choice == 2 {
        var hasUpcoming := HasPlayableMatch(playerID);
        if hasUpcoming && !confirmed {
          return WithdrawalDeclined;
        }
        players := players[k := target.(withdrawReason := ReasonFor(reasonChoice), status := "Withdrawn")];
        var cancelledCount := UpdateMatchSchedule(target.name);
      } else {
        return InvalidChoice;
      }
      ValidateMatchStatuses();
      outcome := Changed;
    }

    /** loadPlayers: every row after the header, read and put at the head. */
    method LoadPlayers(file: Option<seq<string>>)
      modifies this
      ensures matches == old(matches)
      ensures players == (if file.Some? then Prepended(DataRows(file.value), ReadPlayer, old(players)) else old(players))
    {
      if file.None? {
        return;
      }
      var rows := DataRows(file.value);
      var k := 0;
      while k < |rows|
        invariant 0 <= k <= |rows| && matches == old(matches)
        invariant players == Prepended(rows[..k], ReadPlayer, old(players))
      {
        PrependedStep(rows, k, ReadPlayer, old(players));
        players := [ReadPlayer(rows[k])] + players;
        k := k + 1;
      }
      assert rows[..k] == rows;
    }

    /** loadSchedule: every row after the header, read and put at the head. */
    method LoadSchedule(file: Option<seq<string>>)
      modifies this
      ensures players == old(players)
      ensures matches == (if file.Some? then Prepended(DataRows(file.value), ReadMatch, old(matches)) else old(matches))
    {
      if file.None? {
        return;
      }
      var rows := DataRows(file.value);
      var k := 0;
      while k < |rows|
        invariant 0 <= k <= |rows| && players == old(players)
        invariant matches == Prepended(rows[..k], ReadMatch, old(matches))
      {
        PrependedStep(rows, k, ReadMatch, old(matches));
        matches := [ReadMatch(rows[k])] + matches;
        k := k + 1;
      }
      assert rows[..k] == rows;
    }
  }
}
