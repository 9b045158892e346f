/**
 The container that dispatcher threads share.  A thread takes a communicator out of the
 primary map into the excluded one while it works on it, and gives it back afterwards.
 Every method holds the container's lock from start to end.
 */
module CommContainers {
  import opened Optional
  import opened Sequences
  import opened Sets

  type CommId = nat

  /** What a thread needs to know of a communicator here. */
  class CommHandle {
    const id: CommId

    constructor (id: CommId)
      ensures this.id == id
    {
      this.id := id;
    }
  }

  /** The ids in the two maps. */
  datatype Shared = Shared(primary: set<CommId>, excluded: set<CommId>) {
    function Present(): set<CommId> {
      primary + excluded
    }

    function TakeOut(): Shared {
      if primary == {} then this
      else Shared(primary - {LeastOf(primary)}, excluded + {LeastOf(primary)})
    }

    function GetBack(id: CommId): Shared {
      if id in excluded then Shared(primary + {id}, excluded - {id}) else this
    }

    function Insert(id: CommId): Shared {
      if id in Present() then this else this.(primary := primary + {id})
    }

    function Erase(id: CommId): Shared {
      Shared(primary - {id}, excluded - {id})
    }
  }

  class CommContainer {
    var clients: map<CommId, CommHandle>
    var excludedClients: map<CommId, CommHandle>

    constructor ()
      ensures Valid() && Ids() == Shared({}, {})
    {
      clients, excludedClients := map[], map[];
    }

    /** Each handle is filed under its own id, and no id is in both maps. */
    ghost predicate Valid()
      reads this
    {
      && clients.Keys !! excludedClients.Keys
      && (forall id | id in clients :: clients[id].id == id)
      && (forall id | id in excludedClients :: excludedClients[id].id == id)
    }

    function Ids(): Shared
      reads this
    {
      Shared(clients.Keys, excludedClients.Keys)
    }

    /** Every communicator in the container, whichever map it is in. */
    function All(): map<CommId, CommHandle>
      reads this
    {
      excludedClients + clients
    }

    method TakeOut() returns (comm: CommHandle?)
      requires Valid()
      modifies this
      ensures Valid() && Ids() == old(Ids()).TakeOut() && All() == old(All())
      ensures comm == null <==> old(clients) == map[]
      ensures comm != null ==> comm.id == LeastOf(old(clients.Keys)) && comm == old(clients)[comm.id]
    {
      if clients == map[] {
        return null;
      }
      assert clients.Keys != {};
      comm := clients[LeastOf(clients.Keys)];
      clients := clients - {comm.id};
      excludedClients := excludedClients[comm.id := comm];
    }

    method GetBack(id: CommId)
      requires Valid()
      modifies this
      ensures Valid() && Ids() == old(Ids()).GetBack(id) && All() == old(All())
    {
      if id in excludedClients {
        var comm := excludedClients[id];
        excludedClients := excludedClients - {id};
        clients := clients[id := comm];
      }
    }

    method Insert(comm: CommHandle)
      requires Valid()
      modifies this
      ensures Valid() && Ids() == old(Ids()).Insert(comm.id)
      ensures All() == if comm.id in old(All()) then old(All()) else old(All())[comm.id := comm]
    {
      if !(comm.id in clients || comm.id in excludedClients) {
        clients := clients[comm.id := comm];
      }
    }

    method Erase(id: CommId) returns (erased: bool)
      requires Valid()
      modifies this
      ensures Valid() && Ids() == old(Ids()).Erase(id) && All() == old(All()) - {id}
      ensures erased <==> id in old(All())
    {
      erased := id in clients || id in excludedClients;
      clients := clients - {id};
      excludedClients := excludedClients - {id};
    }

    /** None where the source throws session_not_found. */
    method Get(id: CommId) returns (comm: CommHandle?)
      requires Valid()
      ensures if id in All() then comm == All()[id] else comm == null
    {
      if id in clients {
        return clients[id];
      }
      if id in excludedClients {
        return excludedClients[id];
      }
      return null;
    }

    method Size() returns (n: nat)
      requires Valid()
      ensures n == |All()|
    {
      n := |clients| + |excludedClients|;
      assert All().Keys == clients.Keys + excludedClients.Keys;
    }

    method Communicators() returns (comms: map<CommId, CommHandle>)
      requires Valid()
      ensures comms == All()
    {
      comms := excludedClients;
      comms := comms + (map id | id in clients && id !in comms :: clients[id]);
      assert comms == All();
    }
  }

  ghost predicate AllBelow(taken: seq<CommId>, left: set<CommId>) {
    forall i, id | 0 <= i < |taken| && id in left :: taken[i] < id
  }

  ghost predicate Ascending(ids: seq<CommId>) {
    forall i, j | 0 <= i < j < |ids| :: ids[i] < ids[j]
  }

  /** The ids of a list with a property, in order. */
  function Select(ids: seq<CommId>, p: CommId -> bool): seq<CommId> {
    if ids == [] then []
    else Select(ids[..|ids| - 1], p) + (if p(ids[|ids| - 1]) then [ids[|ids| - 1]] else [])
  }

  function Count(ids: seq<CommId>, p: CommId -> bool): nat {
    |Select(ids, p)|
  }

  /** How processing one client ends: with nothing left to do, with data left to process, or
      with an exception. */
  datatype Outcome = Done | MoreWork | DisconnectedError | SessionCreationError | OtherError

  type Outcomes = CommId -> Outcome

  function Ending(outcomes: Outcomes, o: Outcome): CommId -> bool {
    (id: CommId) => outcomes(id) == o
  }

  function Disconnecting(outcomes: Outcomes): CommId -> bool {
    Ending(outcomes, DisconnectedError)
  }

  /** The sweeping half of the dispatcher. */
  class Dispatcher {
    const clients: CommContainer
    /** The callbacks made so far, the sockets closed, and the calls of kick_dispatcher. */
    var disconnectedCalls: seq<CommId>
    var errorCalls: seq<CommId>
    var closed: seq<CommId>
    var kicks: nat

    constructor (clients: CommContainer)
      ensures this.clients == clients && disconnectedCalls == errorCalls == closed == [] && kicks == 0
    {
      this.clients := clients;
      disconnectedCalls, errorCalls, closed, kicks := [], [], [], 0;
    }

    /** handle_disconnected: whoever removes the client closes it and makes the callback. */
    method HandleDisconnected(id: CommId)
      requires clients.Valid()
      modifies this`disconnectedCalls, this`closed, clients
      ensures clients.Valid() && clients.Ids() == old(clients.Ids()).Erase(id)
      ensures clients.All() == old(clients.All()) - {id}
      ensures var mine := if id in old(clients.Ids()).Present() then [id] else [];
              disconnectedCalls == old(disconnectedCalls) + mine && closed == old(closed) + mine
    {
      var removed := clients.Erase(id);
      if removed {
        closed := closed + [id];
        disconnectedCalls := disconnectedCalls + [id];
      }
    }

    /** Data left over asks for another kick; a session that cannot be created closes the
        socket and leaves the rest to the disconnect that follows; any other exception but
        a disconnect is only reported. */
    method ProcessClient(id: CommId, outcome: Outcome)
      requires clients.Valid()
      modifies this, clients
      ensures clients.Valid()
      ensures clients.Ids() == if outcome.DisconnectedError? then old(clients.Ids()).Erase(id) else old(clients.Ids())
      ensures var removes := outcome.DisconnectedError? && id in old(clients.Ids()).Present();
              && disconnectedCalls == old(disconnectedCalls) + (if removes then [id] else [])
              && closed == old(closed) + (if removes || outcome.SessionCreationError? then [id] else [])
      ensures errorCalls == old(errorCalls) + (if outcome.OtherError? then [id] else [])
      ensures kicks == old(kicks) + (if outcome.MoreWork? then 1 else 0)
    {
      match outcome {
        case Done =>
        case MoreWork => kicks := kicks + 1;
        case DisconnectedError => HandleDisconnected(id);
        case SessionCreationError => closed := closed + [id];
        case OtherError => errorCalls := errorCalls + [id];
      }
    }

    /** The for_each that hands a sweep's clients back; an erased one is no longer there. */
    method GetBackEach(comms: seq<CommId>)
      requires clients.Valid()
      modifies clients
      ensures clients.Valid()
      ensures clients.Ids() == GivenBack(old(clients.Ids()), comms)
    {
      ghost var before := clients.Ids();
      for i := 0 to |comms|
        invariant clients.Valid()
        invariant clients.Ids() == GivenBack(before, comms[..i])
      {
        GiveBackOne(before, comms[..i], comms[i]);
        assert comms[..i + 1] == comms[..i] + [comms[i]];
        clients.GetBack(comms[i]);
      }
      assert comms[..|comms|] == comms;
    }

    /** process_clients while no other thread interferes: every client is processed exactly
        once, in the order of the ids; exactly the ones that did not disconnect are back in
        the primary map at the end; and each client's ending has its effect. */
    method ProcessClients(outcomes: Outcomes) returns (comms: seq<CommId>)
      requires clients.Valid()
      modifies this, clients
      ensures clients.Valid()
      ensures Ascending(comms) && Elements(comms) == old(clients.Ids()).primary
      ensures clients.Ids() == Shared(Kept(comms, Disconnecting(outcomes)), old(clients.Ids()).excluded)
      ensures disconnectedCalls == old(disconnectedCalls) + Select(comms, Disconnecting(outcomes))
      ensures errorCalls == old(errorCalls) + Select(comms, Ending(outcomes, OtherError))
      ensures kicks == old(kicks) + Count(comms, Ending(outcomes, MoreWork))
    {
      comms := [];
      ghost var before, calls, errors, kicked := clients.Ids(), disconnectedCalls, errorCalls, kicks;
      assert before.primary !! before.excluded;
      while true
        invariant clients.Valid()
        invariant Ascending(comms) && Elements(comms) <= before.primary
        invariant AllBelow(comms, clients.Ids().primary)
        invariant clients.Ids() == Swept(before, comms, Disconnecting(outcomes))
        invariant disconnectedCalls == calls + Select(comms, Disconnecting(outcomes))
        invariant errorCalls == errors + Select(comms, Ending(outcomes, OtherError))
        invariant kicks == kicked + Count(comms, Ending(outcomes, MoreWork))
        decreases |clients.Ids().primary|
      {
        hide Select, Count, Swept;
        ghost var between := clients.Ids();
        var comm := clients.TakeOut();
        if comm == null {
          break;
        }
        SweepOne(before, comms, comm.id, Disconnecting(outcomes));
        TakingInOrder(comms, between.primary, comm.id);
        ElementsSnoc(comms, comm.id);
        SelectSnoc(calls, comms, comm.id, Disconnecting(outcomes));
        SelectSnoc(errors, comms, comm.id, Ending(outcomes, OtherError));
        CountSnoc(comms, comm.id, Ending(outcomes, MoreWork));
        comms := comms + [comm.id];
        assert comm.id in clients.Ids().Present();
        ProcessClient(comm.id, outcomes(comm.id));
      }
      SweptClean(before, comms, Disconnecting(outcomes));
      GetBackEach(comms);
    }
  }

  lemma SelectSnoc(before: seq<CommId>, ids: seq<CommId>, id: CommId, p: CommId -> bool)
    ensures before + Select(ids + [id], p) == (before + Select(ids, p)) + if p(id) then [id] else []
  {
    assert (ids + [id])[..|ids|] == ids;
    Associative(before, Select(ids, p), if p(id) then [id] else []);
  }

  lemma CountSnoc(ids: seq<CommId>, id: CommId, p: CommId -> bool)
    ensures Count(ids + [id], p) == Count(ids, p) + if p(id) then 1 else 0
  {
    SelectSnoc([], ids, id, p);
  }

  /** The maps when the clients in `comms` were taken and processed. */
  function Swept(before: Shared, comms: seq<CommId>, disconnects: CommId -> bool): Shared {
    Shared(before.primary - Elements(comms), before.excluded + Kept(comms, disconnects))
  }

  /** The maps when those of `comms` that are still there were handed back. */
  function GivenBack(before: Shared, comms: seq<CommId>): Shared {
    Shared(before.primary + before.excluded * Elements(comms), before.excluded - Elements(comms))
  }

  lemma SweepOne(before: Shared, comms: seq<CommId>, id: CommId, disconnects: CommId -> bool)
    requires before.primary !! before.excluded
    requires Swept(before, comms, disconnects).primary != {} && id == LeastOf(Swept(before, comms, disconnects).primary)
    ensures var taken := Swept(before, comms, disconnects).TakeOut();
            Swept(before, comms + [id], disconnects) == if disconnects(id) then taken.Erase(id) else taken
  {
  }

  lemma SweptClean(before: Shared, comms: seq<CommId>, disconnects: CommId -> bool)
    requires before.primary !! before.excluded
    requires Elements(comms) <= before.primary && Swept(before, comms, disconnects).primary == {}
    ensures Elements(comms) == before.primary
    ensures GivenBack(Swept(before, comms, disconnects), comms) == Shared(Kept(comms, disconnects), before.excluded)
  {
    assert before.primary == Swept(before, comms, disconnects).primary + Elements(comms);
    assert Kept(comms, disconnects) <= Elements(comms);
  }

  lemma TakingInOrder(comms: seq<CommId>, left: set<CommId>, id: CommId)
    requires AllBelow(comms, left) && Ascending(comms) && IsLeast(id, left)
    ensures AllBelow(comms + [id], left - {id}) && Ascending(comms + [id])
    ensures |left - {id}| < |left|
  {
  }

  lemma GiveBackOne(before: Shared, done: seq<CommId>, id: CommId)
    ensures GivenBack(before, done + [id]) == GivenBack(before, done).GetBack(id)
  {
  }

  function Elements(ids: seq<CommId>): set<CommId> {
    set id | id in ids
  }

  function Kept(ids: seq<CommId>, disconnects: CommId -> bool): set<CommId> {
    set id | id in ids && !disconnects(id)
  }

  lemma ElementsSnoc(ids: seq<CommId>, id: CommId)
    ensures Elements(ids + [id]) == Elements(ids) + {id}
  {
  }
}
