/** The signalling server: rooms that expire, joined and polled by concurrent requests. Each section under the lock is
    one atomic step, so the runs here are all interleavings of all requests.
    Main results: `NoDuplicateClients`, `PollsExtend`, `JoinIsSeen` and `LeaseIsKept`. */
module Rooms {
  import opened Text

  /** Seconds since the epoch. */
  type Time = real

  const TTL := 3600.0

  /** A decoded JSON scalar, as a request carries it. */
  datatype Json = Null | Bool(b: bool) | Number(n: int) | Str(s: string)

  /** Python's `==`: booleans are the numbers 0 and 1. */
  predicate Equal(a: Json, b: Json) {
    var x := if a.Bool? then Number(if a.b then 1 else 0) else a;
    var y := if b.Bool? then Number(if b.b then 1 else 0) else b;
    x == y
  }

  datatype Address = Address(ip: Json, port: Json)

  predicate Same(a: Address, b: Address) {
    Equal(a.ip, b.ip) && Equal(a.port, b.port)
  }

  datatype Room = Room(host: Address, clients: seq<Address>, createdAt: int, expiresAt: Time)

  type Store = map<string, Room>

  /** What a poll answers; there is no `createdAt` for an unknown room. */
  datatype View = Unknown | Known(host: Address, clients: seq<Address>, createdAt: int)

  predicate Listed(clients: seq<Address>, a: Address) {
    exists i :: 0 <= i < |clients| && Same(clients[i], a)
  }

  // ----- the sections under the lock, on values -----

  function Cleaned(rooms: Store, current: Time): Store {
    map id | id in rooms && rooms[id].expiresAt > current :: rooms[id]
  }

  function Put(rooms: Store, id: string, host: Address, createdAt: int, current: Time): Store {
    rooms[id := Room(host, [], createdAt, current + TTL)]
  }

  function JoinedRoom(room: Room, a: Address, current: Time): Room {
    var clients := if Listed(room.clients, a) then room.clients else room.clients + [a];
    room.(clients := clients, expiresAt := current + TTL)
  }

  function Joined(rooms: Store, id: string, a: Address, current: Time): Store {
    if id in rooms then rooms[id := JoinedRoom(rooms[id], a, current)] else rooms
  }

  function Polled(rooms: Store, id: string): View {
    if id in rooms then Known(rooms[id].host, rooms[id].clients, rooms[id].createdAt) else Unknown
  }

  /** The module state and the handlers. */
  class SignalingServer {
    var rooms: Store

    constructor ()
      ensures rooms == map[]
    {
      rooms := map[];
    }

    /** `cleanup_expired_rooms`, with the clock read before the lock is taken. */
    method CleanupExpiredRooms(current: Time)
      modifies this
      ensures rooms == Cleaned(old(rooms), current)
    {
      var expired := CollectExpired(current);
      for k := 0 to |expired|
        invariant forall id :: id in rooms <==> id in old(rooms) && id !in expired[..k]
        invariant forall id :: id in rooms ==> rooms[id] == old(rooms)[id]
      {
        rooms := rooms - {expired[k]};
        assert expired[..k + 1] == expired[..k] + [expired[k]];
      }
      assert expired[..|expired|] == expired;
    }

    /** The loop that lists the rooms to delete. */
    method CollectExpired(current: Time) returns (expired: seq<string>)
      ensures forall id :: id in expired <==> id in rooms && rooms[id].expiresAt <= current
    {
      expired := [];
      var ids := rooms.Keys;
      while ids != {}
        invariant ids <= rooms.Keys
        invariant forall id :: id in expired <==> id in rooms && id !in ids && rooms[id].expiresAt <= current
        decreases |ids|
      {
        var id :| id in ids;
        ids := ids - {id};
        if rooms[id].expiresAt <= current {
          expired := expired + [id];
        }
      }
    }

    /** The locked part of `put_room`. */
    method PutRoom(id: string, host: Address, createdAt: int, current: Time)
      modifies this
      ensures rooms == Put(old(rooms), id, host, createdAt, current)
    {
      var roomCopy := Room(host, [], createdAt, current + TTL);
      rooms := rooms[id := roomCopy];
    }

    /** The locked part of `handle_join`: the host's address, or nothing when the room is not there. */
    method JoinRoom(id: string, a: Address, current: Time) returns (host: Option<Address>)
      modifies this
      ensures rooms == Joined(old(rooms), id, a, current)
      ensures host == if id in old(rooms) then Some(old(rooms)[id].host) else None
    {
      if id !in rooms {
        return None;
      }
      var roomData := rooms[id];
      var exists_ := false;
      for i := 0 to |roomData.clients|
        invariant exists_ <==> exists j :: 0 <= j < i && Same(roomData.clients[j], a)
      {
        exists_ := exists_ || Same(roomData.clients[i], a);
      }
      if !exists_ {
        roomData := roomData.(clients := roomData.clients + [a]);
      }
      roomData := roomData.(expiresAt := current + TTL);
      rooms := rooms[id := roomData];
      host := Some(roomData.host);
    }

    /** The locked part of `get_room`: the list is copied. */
    method GetRoom(id: string) returns (view: View)
      ensures view == Polled(rooms, id)
    {
      if id !in rooms {
        return Unknown;
      }
      var room := rooms[id];
      view := Known(room.host, room.clients, room.createdAt);
    }

    /** `handle_join` without another request in between: two sections under the lock. */
    method HandleJoin(id: string, a: Address, before: Time, current: Time) returns (host: Option<Address>)
      modifies this
      ensures rooms == Joined(Cleaned(old(rooms), before), id, a, current)
      ensures host.Some? <==> id in Cleaned(old(rooms), before)
    {
      CleanupExpiredRooms(before);
      host := JoinRoom(id, a, current);
    }
  }

  // ----- interleavings -----

  /** One section under the lock. `read` is the clock value that it uses; cleanup and register read the clock before
      they take the lock, so it may be older than the time of the step. */
  datatype Section =
    | CleanupSection(read: Time)
    | RegisterSection(id: string, host: Address, createdAt: int, read: Time)
    | JoinSection(id: string, a: Address)
    | PollSection(id: string)

  /** A section and the time at which it holds the lock. */
  datatype Step = Step(at: Time, section: Section)

  predicate ValidStep(s: Step) {
    match s.section
    case CleanupSection(read) => read <= s.at
    case RegisterSection(_, _, _, read) => read <= s.at
    case _ => true
  }

  /** A run in time order: the clock never runs backwards. */
  predicate Timeline(run: seq<Step>) {
    && (forall i :: 0 <= i < |run| ==> ValidStep(run[i]))
    && forall i, j :: 0 <= i < j < |run| ==> run[i].at <= run[j].at
  }

  function After(rooms: Store, s: Step): Store {
    match s.section
    case CleanupSection(read) => Cleaned(rooms, read)
    case RegisterSection(id, host, createdAt, read) => Put(rooms, id, host, createdAt, read)
    case JoinSection(id, a) => Joined(rooms, id, a, s.at)
    case PollSection(_) => rooms
  }

  function Run(rooms: Store, run: seq<Step>): Store
    decreases |run|
  {
    if run == [] then rooms else Run(After(rooms, run[0]), run[1..])
  }

  /** No address is listed twice. */
  predicate Distinct(clients: seq<Address>) {
    forall i, j :: 0 <= i < j < |clients| ==> !Same(clients[i], clients[j])
  }

  predicate AllDistinct(rooms: Store) {
    forall id <- rooms :: Distinct(rooms[id].clients)
  }

  lemma {:induction false} RunKeepsDistinct(rooms: Store, run: seq<Step>)
    requires AllDistinct(rooms)
    ensures AllDistinct(Run(rooms, run))
    decreases |run|
  {
    if run != [] {
      RunKeepsDistinct(After(rooms, run[0]), run[1..]);
    }
  }

  /** No room ever holds the same address twice, in any interleaving. */
  lemma NoDuplicateClients(run: seq<Step>)
    ensures AllDistinct(Run(map[], run))
  {
    RunKeepsDistinct(map[], run);
  }

  /** During the run the room is neither registered again nor missing. */
  predicate Lives(rooms: Store, run: seq<Step>, id: string)
    decreases |run|
  {
    && id in rooms
    && (run == []
        || (!(run[0].section.RegisterSection? && run[0].section.id == id) && Lives(After(rooms, run[0]), run[1..], id)))
  }

  lemma {:induction false} LivingRoomExtends(rooms: Store, run: seq<Step>, id: string)
    requires Lives(rooms, run, id)
    ensures id in Run(rooms, run)
    ensures var (r, q) := (rooms[id], Run(rooms, run)[id]);
      r.host == q.host && r.createdAt == q.createdAt && r.clients <= q.clients
    decreases |run|
  {
    if run != [] {
      LivingRoomExtends(After(rooms, run[0]), run[1..], id);
    }
  }

  /** A poll's client list is a prefix of any later poll's list of the same room, with the same host. */
  lemma PollsExtend(rooms: Store, run: seq<Step>, id: string)
    requires Lives(rooms, run, id)
    ensures match (Polled(rooms, id), Polled(Run(rooms, run), id))
      case (Known(host, clients, createdAt), Known(host', clients', createdAt')) =>
        host == host' && createdAt == createdAt' && clients <= clients'
      case _ => false
  {
    LivingRoomExtends(rooms, run, id);
  }

  /** A client that joined is in every later poll, until the room is registered again or removed. */
  lemma JoinIsSeen(rooms: Store, id: string, a: Address, at: Time, run: seq<Step>)
    requires id in rooms && Lives(Joined(rooms, id, a, at), run, id)
    ensures var view := Polled(Run(Joined(rooms, id, a, at), run), id); view.Known? && Listed(view.clients, a)
  {
    var joined := Joined(rooms, id, a, at);
    LivingRoomExtends(joined, run, id);
    var clients, now := joined[id].clients, Run(joined, run)[id].clients;
    assert Listed(clients, a) by {
      if !Listed(rooms[id].clients, a) {
        assert Same(clients[|clients| - 1], a);
      }
    }
    var i :| 0 <= i < |clients| && Same(clients[i], a);
    assert now[i] == clients[i];
  }

  /** A step removes a room if and only if it is a cleanup whose clock reading has reached the room's expiry time;
      so a room goes only once that time has passed. */
  lemma RemovedExactlyWhenExpired(rooms: Store, s: Step, id: string)
    requires id in rooms && ValidStep(s)
    ensures id !in After(rooms, s) <==> s.section.CleanupSection? && rooms[id].expiresAt <= s.section.read
    ensures id !in After(rooms, s) ==> rooms[id].expiresAt <= s.at
  {
  }

  /** Nobody re-registers the room, and no step is as late as `lease`. */
  predicate Undisturbed(run: seq<Step>, id: string, lease: Time) {
    forall i :: 0 <= i < |run| ==> run[i].at < lease && !(run[i].section.RegisterSection? && run[i].section.id == id)
  }

  lemma {:induction false} LeaseLasts(rooms: Store, now: Time, run: seq<Step>, id: string, lease: Time)
    requires Timeline(run) && (run != [] ==> now <= run[0].at) && Undisturbed(run, id, lease)
    requires id in rooms && lease <= rooms[id].expiresAt <= now + TTL
    ensures Lives(rooms, run, id)
    decreases |run|
  {
    if run != [] {
      var s, next := run[0], After(rooms, run[0]);
      assert ValidStep(s) && s.at < lease;
      assert id in next && lease <= next[id].expiresAt <= s.at + TTL;
      forall i | 0 <= i < |run[1..]| ensures ValidStep(run[1..][i]) && s.at <= run[1..][i].at {
        assert run[1..][i] == run[i + 1];
      }
      LeaseLasts(next, s.at, run[1..], id, lease);
    }
  }

  /** No expiry time lies further ahead than the TTL. */
  lemma {:induction false} ExpiryIsNear(rooms: Store, run: seq<Step>, end: Time)
    requires Timeline(run) && forall i :: 0 <= i < |run| ==> run[i].at <= end
    requires forall id <- rooms :: rooms[id].expiresAt <= end + TTL
    ensures forall id <- Run(rooms, run) :: Run(rooms, run)[id].expiresAt <= end + TTL
    decreases |run|
  {
    if run != [] {
      assert ValidStep(run[0]) && run[0].at <= end;
      forall i | 0 <= i < |run[1..]| ensures ValidStep(run[1..][i]) && run[1..][i].at <= end {
        assert run[1..][i] == run[i + 1];
      }
      ExpiryIsNear(After(rooms, run[0]), run[1..], end);
    }
  }

  /** A lease is kept: take any run, and the expiry time of a room at its end. However the run goes on, as long as that
      time has not come and the room is not registered again, the room stays. */
  lemma LeaseIsKept(before: seq<Step>, run: seq<Step>, id: string)
    requires Timeline(before + run) && id in Run(map[], before)
    requires Undisturbed(run, id, Run(map[], before)[id].expiresAt)
    ensures Lives(Run(map[], before), run, id)
  {
    if before == [] || run == [] {
      return;
    }
    var all := before + run;
    var end := before[|before| - 1].at;
    forall i | 0 <= i < |before| ensures ValidStep(before[i]) && before[i].at <= end {
      assert all[i] == before[i] && all[|before| - 1] == before[|before| - 1];
    }
    assert forall i, j :: 0 <= i < j < |before| ==>
      all[i].at <= all[j].at && all[i] == before[i] && all[j] == before[j];
    forall i, j | 0 <= i < j < |run| ensures run[i].at <= run[j].at {
      assert all[|before| + i] == run[i] && all[|before| + j] == run[j];
    }
    forall i | 0 <= i < |run| ensures ValidStep(run[i]) && end <= run[i].at {
      assert all[|before| + i] == run[i] && all[|before| - 1] == before[|before| - 1];
    }
    ExpiryIsNear(map[], before, end);
    LeaseLasts(Run(map[], before), end, run, id, Run(map[], before)[id].expiresAt);
  }
}
