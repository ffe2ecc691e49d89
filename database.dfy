/** The room and player registry (database/database.go): the directory of
    connected players, the rooms with their member sets, room creation and
    teardown, joining and leaving, disconnects, the stale-room reaper and
    broadcasting. Each method is one critical section: the room locks and
    the concurrent maps of the server become atomic method boundaries.
    Clock readings are the parameter `now`, in seconds. */
module Database {
  import opened Wrappers
  import opened Consts
  import opened Model

  /** A non-empty set has a member. */
  lemma NonEmptyHasMember(s: set<int>)
    requires s != {}
    ensures exists x :: x in s
  {
    if forall x :: x !in s {
      assert false;
    }
  }

  /** Ids in strictly ascending order. */
  ghost predicate Ascending(ids: seq<int>) {
    forall i, j :: 0 <= i < j < |ids| ==> ids[i] < ids[j]
  }

  /** Rooms ordered by ascending id. */
  ghost predicate SortedById(list: seq<Room>) {
    forall i, j :: 0 <= i < j < |list| ==> list[i].id < list[j].id
  }

  /** Inserts an id into an ascending sequence that does not hold it. */
  function InsertId(ids: seq<int>, id: int): (r: seq<int>)
    requires Ascending(ids) && id !in ids
    ensures Ascending(r)
    ensures |r| == |ids| + 1
    ensures forall x :: x in r <==> x in ids || x == id
  {
    if ids == [] || id < ids[0] then [id] + ids
    else
      var rest := InsertId(ids[1..], id);
      assert forall k :: 0 <= k < |rest| ==> ids[0] < rest[k] by {
        forall k | 0 <= k < |rest|
          ensures ids[0] < rest[k]
        {
          if rest[k] != id {
            assert rest[k] in rest;
            var m :| 0 <= m < |ids| - 1 && ids[1..][m] == rest[k];
            assert ids[m + 1] == rest[k];
          }
        }
      }
      [ids[0]] + rest
  }
  /** The ids of a set in ascending order. */
  method SortIds(keys: set<int>) returns (ids: seq<int>)
    ensures Ascending(ids)
    ensures |ids| == |keys|
    ensures forall id :: id in ids <==> id in keys
  {
    ids := [];
    var left := keys;
    while left != {}
      invariant left <= keys
      invariant Ascending(ids)
      invariant |ids| + |left| == |keys|
      invariant forall id :: id in ids <==> id in keys - left
      decreases left
    {
      NonEmptyHasMember(left);
      var id :| id in left;
      ids := InsertId(ids, id);
      left := left - {id};
    }
  }

  /** The rooms registered under the given ascending ids, in that order. */
  method ListRooms(registered: map<int, Room>, ids: seq<int>) returns (list: seq<Room>)
    requires Ascending(ids) && |ids| == |registered|
    requires forall id :: id in ids <==> id in registered
    requires forall id :: id in registered ==> registered[id].id == id
    ensures SortedById(list)
    ensures |list| == |registered|
    ensures forall i :: 0 <= i < |list| ==> list[i].id in registered && registered[list[i].id] == list[i]
    ensures forall id :: id in registered ==> registered[id] in list
  {
    forall i | 0 <= i < |ids|
      ensures ids[i] in registered
    {
      assert ids[i] in ids;
    }
    list := seq(|ids|, i requires 0 <= i < |ids| && ids[i] in registered => registered[ids[i]]);
    forall id | id in registered
      ensures registered[id] in list
    {
      assert id in ids;
      var i :| 0 <= i < |ids| && ids[i] == id;
      assert list[i] == registered[id];
    }
    assert forall i :: 0 <= i < |list| ==> list[i] == registered[ids[i]] && list[i].id == ids[i];
  }


  /** The message sent to each recipient: one per registered member of
      `members` outside `exclude`. */
  function Delivery(members: set<int>, players: map<int, Player>, exclude: set<int>, text: string): map<int, string> {
    map m | m in members && m in players && m !in exclude :: text
  }

  /** A model of JoinRoom's success branch as written (lines 150-154):
      the member set gains the player and the count always grows by one. */
  function JoinAsWritten(room: Room, members: set<int>, playerId: int): (Room, set<int>) {
    (room.(players := room.players + 1), members + {playerId})
  }

  /** The as-written count update keeps players == |members| for a new
      member but breaks it when the player is already a member. */
  lemma RejoinBreaksMemberCount(room: Room, members: set<int>, playerId: int)
    requires room.players == |members|
    ensures playerId !in members ==> JoinAsWritten(room, members, playerId).0.players == |JoinAsWritten(room, members, playerId).1|
    ensures playerId in members ==> JoinAsWritten(room, members, playerId).0.players == |JoinAsWritten(room, members, playerId).1| + 1
  {
    if playerId in members {
      assert members + {playerId} == members;
    }
  }

  class Registry {
    var roomIds: int
    var players: map<int, Player>
    var rooms: map<int, Room>
    var roomPlayers: map<int, set<int>>

    /** Every registered room has a member set and an id no larger than
        the last one issued; its member count is the size of its member
        set; members are known players; only whitelisted properties are
        stored. */
    ghost predicate Valid()
      reads this
    {
      && roomIds >= 0
      && rooms.Keys == roomPlayers.Keys
      && (forall id :: id in rooms ==> 0 < id <= roomIds && rooms[id].id == id)
      && (forall id :: id in rooms ==> rooms[id].players == |roomPlayers[id]|)
      && (forall id :: id in roomPlayers ==> roomPlayers[id] <= players.Keys)
      && (forall id :: id in rooms ==> rooms[id].properties.Keys <= RoomPropsKeys)
      && (forall id :: id in players ==> players[id].id == id)
    }

    /** The game a registered room runs, as a frame. */
    ghost function GameOf(id: int): set<Game>
      reads this
    {
      if id in rooms && rooms[id].game.Some? then {rooms[id].game.value} else {}
    }

    /** All games of registered rooms, as a frame. */
    ghost function Games(): set<Game>
      reads this
    {
      set id | id in rooms && rooms[id].game.Some? :: rooms[id].game.value
    }

    /** Whether the reaper tears a room down: idle for more than a day, or
        no member online. */
    ghost predicate Stale(id: int, now: int)
      reads this
      requires id in rooms && id in roomPlayers && roomPlayers[id] <= players.Keys
    {
      rooms[id].activeTime + Day < now || !(exists m :: m in roomPlayers[id] && players[m].online)
    }

    constructor ()
      ensures Valid()
      ensures roomIds == 0 && players == map[] && rooms == map[] && roomPlayers == map[]
    {
      roomIds := 0;
      players, rooms, roomPlayers := map[], map[], map[];
    }

    /** A (re)connecting player gets a fresh record, online and in no room. */
    method Connected(id: int, name: string, score: int)
      requires Valid()
      modifies this
      ensures Valid()
      ensures players == old(players)[id := Player(id, name, score, 0, true)]
      ensures rooms == old(rooms) && roomPlayers == old(roomPlayers) && roomIds == old(roomIds)
    {
      players := players[id := Player(id, name, score, 0, true)];
    }

    /** Registers a new waiting room with an id above every id issued before. */
    method CreateRoom(creator: int, password: string, playerNum: int, now: int) returns (room: Room)
      requires Valid()
      modifies this
      ensures Valid()
      ensures room.id == old(roomIds) + 1 == roomIds
      ensures forall id :: id in old(rooms) ==> id < room.id
      ensures room == Room(room.id, GameTypeClassic, None, Waiting, 0, creator, now, map[], playerNum, password)
      ensures rooms == old(rooms)[room.id := room]
      ensures roomPlayers == old(roomPlayers)[room.id := {}]
      ensures players == old(players)
    {
      roomIds := roomIds + 1;
      room := Room(roomIds, GameTypeClassic, None, Waiting, 0, creator, now, map[], playerNum, password);
      rooms := rooms[room.id := room];
      roomPlayers := roomPlayers[room.id := {}];
    }

    /** Unregisters a room and its member set and closes its game's token queues. */
    method DeleteRoom(id: int)
      requires Valid() && id in rooms
      modifies this, GameOf(id)
      ensures Valid()
      ensures rooms == old(rooms) - {id} && roomPlayers == old(roomPlayers) - {id}
      ensures players == old(players) && roomIds == old(roomIds)
      ensures old(rooms[id].game).Some? ==> old(rooms[id].game).value.closed
    {
      var room := rooms[id];
      rooms := rooms - {id};
      roomPlayers := roomPlayers - {id};
      if room.game.Some? {
        room.game.value.Close();
      }
    }

    /** All registered rooms, by ascending id. */
    method GetRooms() returns (list: seq<Room>)
      requires Valid()
      ensures SortedById(list)
      ensures |list| == |rooms|
      ensures forall i :: 0 <= i < |list| ==> list[i].id in rooms && rooms[list[i].id] == list[i]
      ensures forall id :: id in rooms ==> rooms[id] in list
    {
      var ids := SortIds(rooms.Keys);
      list := ListRooms(rooms, ids);
    }

    /** Whether any of the given members is online (the scan of roomCancel). */
    method AnyOnline(members: set<int>) returns (living: bool)
      requires members <= players.Keys
      ensures living <==> exists m :: m in members && players[m].online
    {
      living := false;
      var left := members;
      while left != {}
        invariant left <= members
        invariant !living
        invariant forall m :: m in members - left ==> !players[m].online
        decreases left
      {
        NonEmptyHasMember(left);
        var m :| m in left;
        if players[m].online {
          living := true;
          return;
        }
        left := left - {m};
      }
    }

    /** The messages a broadcast delivers: one to each registered member of
        the room outside the exclusion set. */
    method Deliver(members: set<int>, exclude: set<int>, text: string) returns (sent: map<int, string>)
      ensures sent == Delivery(members, players, exclude, text)
    {
      sent := map[];
      var left := members;
      while left != {}
        invariant left <= members
        invariant sent == Delivery(members - left, players, exclude, text)
        decreases left
      {
        NonEmptyHasMember(left);
        var m :| m in left;
        if m in players && m !in exclude {
          sent := sent[m := text];
        }
        left := left - {m};
      }
      assert members - left == members;
    }

    /** Sends a text line to the room's members; refreshes the room's activity. */
    method Broadcast(roomId: int, msg: string, exclude: set<int>, now: int) returns (sent: map<int, string>)
      requires Valid()
      modifies this
      ensures Valid()
      ensures roomId !in old(rooms) ==> sent == map[] && rooms == old(rooms)
      ensures roomId in old(rooms) ==>
        && rooms == old(rooms)[roomId := old(rooms[roomId]).(activeTime := now)]
        && sent == Delivery(roomPlayers[roomId], players, exclude, ">> " + msg)
      ensures roomPlayers == old(roomPlayers) && players == old(players) && roomIds == old(roomIds)
    {
      if roomId !in rooms {
        return map[];
      }
      rooms := rooms[roomId := rooms[roomId].(activeTime := now)];
      sent := Deliver(roomPlayers[roomId], exclude, ">> " + msg);
    }

    /** Sends a serialized object to the room's members; activity is not refreshed. */
    method BroadcastObject(roomId: int, payload: string, exclude: set<int>) returns (sent: map<int, string>)
      requires Valid()
      ensures roomId !in rooms ==> sent == map[]
      ensures roomId in rooms ==> sent == Delivery(roomPlayers[roomId], players, exclude, payload)
    {
      if roomId !in rooms {
        return map[];
      }
      sent := Deliver(roomPlayers[roomId], exclude, payload);
    }

    /** Joins a player to a room, checking in order: the player is known,
        the room is known, the room is not running, the room is not full,
        the password matches. The room's activity is refreshed once the
        room is found, whether or not the later checks pass. */
    method JoinRoom(roomId: int, playerId: int, password: string, now: int) returns (r: Outcome<Error>)
      requires Valid()
      modifies this`rooms, this`roomPlayers, this`players
      ensures Valid()
      ensures playerId !in old(players) ==> r == Fail(ErrorsExist) && unchanged(this)
      ensures playerId in old(players) && roomId !in old(rooms) ==> r == Fail(ErrorsRoomInvalid) && unchanged(this)
      ensures playerId in old(players) && roomId in old(rooms) ==>
        var room := old(rooms[roomId]);
        && r == (if room.state == Running then Fail(ErrorsJoinFailForRoomRunning)
                 else if room.players >= room.maxPlayer then Fail(ErrorsRoomPlayersIsFull)
                 else if room.password != password then Fail(ErrorsRoomPassword)
                 else Pass)
        && (r.Fail? ==>
              && rooms == old(rooms)[roomId := room.(activeTime := now)]
              && roomPlayers == old(roomPlayers) && players == old(players))
        && (r.Pass? ==>
              && roomPlayers == old(roomPlayers)[roomId := old(roomPlayers[roomId]) + {playerId}]
              && rooms == old(rooms)[roomId := room.(activeTime := now, players := |roomPlayers[roomId]|)]
              && players == old(players)[playerId := old(players[playerId]).(roomId := roomId)])
    {
      if playerId !in players {
        return Fail(ErrorsExist);
      }
      if roomId !in rooms {
        return Fail(ErrorsRoomInvalid);
      }
      var members := roomPlayers[roomId];
      var room := rooms[roomId].(activeTime := now);
      assert room.players == |members|;
      rooms := rooms[roomId := room];
      if room.state == Running {
        return Fail(ErrorsJoinFailForRoomRunning);
      }
      if room.players >= room.maxPlayer {
        return Fail(ErrorsRoomPlayersIsFull);
      }
      if room.password != password {
        return Fail(ErrorsRoomPassword);
      }
      AddMember(roomId, playerId);
      r := Pass;
    }

    /** The success branch of JoinRoom: the player joins the member set,
        the count follows the member set and the player records the room. */
    method AddMember(roomId: int, playerId: int)
      requires Valid() && roomId in rooms && playerId in players
      modifies this`rooms, this`roomPlayers, this`players
      ensures Valid()
      ensures roomPlayers == old(roomPlayers)[roomId := old(roomPlayers[roomId]) + {playerId}]
      ensures rooms == old(rooms)[roomId := old(rooms[roomId]).(players := |roomPlayers[roomId]|)]
      ensures players == old(players)[playerId := old(players[playerId]).(roomId := roomId)]
    {
      var members := roomPlayers[roomId];
      var room := rooms[roomId];
      // Count the player only when it is not a member yet.
      var grown := room.players;
      if playerId !in members {
        grown := grown + 1;
      } else {
        assert members + {playerId} == members;
      }
      roomPlayers := roomPlayers[roomId := members + {playerId}];
      rooms := rooms[roomId := room.(players := grown)];
      players := players[playerId := players[playerId].(roomId := roomId)];
    }

    /** The member bookkeeping of leaveRoom: the room's activity is
        refreshed; a member is removed, its count decremented and its room
        cleared, and when it was the creator some remaining member takes
        the role over. */
    method Depart(roomId: int, playerId: int, now: int)
      requires Valid() && roomId in rooms && playerId in players
      modifies this
      ensures Valid()
      ensures roomIds == old(roomIds)
      ensures roomPlayers == old(roomPlayers)[roomId := old(roomPlayers[roomId]) - {playerId}]
      ensures players == if playerId in old(roomPlayers[roomId])
                         then old(players)[playerId := old(players[playerId]).(roomId := 0)]
                         else old(players)
      ensures rooms == old(rooms)[roomId := old(rooms[roomId]).(activeTime := now, players := |roomPlayers[roomId]|, creator := rooms[roomId].creator)]
      ensures var handover := old(rooms[roomId].creator) == playerId && playerId in old(roomPlayers[roomId]) && roomPlayers[roomId] != {};
        && (handover ==> rooms[roomId].creator in roomPlayers[roomId])
        && (!handover ==> rooms[roomId].creator == old(rooms[roomId].creator))
    {
      var members := roomPlayers[roomId];
      var room := rooms[roomId].(activeTime := now);
      assert room.players == |members|;
      if playerId in members {
        var rest := members - {playerId};
        room := room.(players := room.players - 1);
        players := players[playerId := players[playerId].(roomId := 0)];
        if rest != {} && room.creator == playerId {
          NonEmptyHasMember(rest);
          var heir :| heir in rest;
          room := room.(creator := heir);
        }
        members := rest;
      } else {
        assert members - {playerId} == members;
      }
      rooms := rooms[roomId := room];
      roomPlayers := roomPlayers[roomId := members];
    }

    /** leaveRoom took place on the registered room roomId: nothing
        changed for an unknown player; otherwise the room's activity was
        refreshed, a member left (its room cleared) and a leaving creator
        handed the room to a remaining member, and a room left without
        members was unregistered. No other room changed. */
    twostate predicate Left(roomId: int, playerId: int, now: int)
      reads this
    {
      && roomId in old(rooms) && roomId in old(roomPlayers)
      && roomIds == old(roomIds)
      && (playerId !in old(players) ==> rooms == old(rooms) && roomPlayers == old(roomPlayers) && players == old(players))
      && (playerId in old(players) ==>
            var members := old(roomPlayers[roomId]) - {playerId};
            var room := old(rooms[roomId]);
            && players == (if playerId in old(roomPlayers[roomId]) then old(players)[playerId := old(players[playerId]).(roomId := 0)] else old(players))
            && (members == {} ==>
                  rooms == old(rooms) - {roomId} && roomPlayers == old(roomPlayers) - {roomId})
            && (members != {} ==>
                  && roomPlayers == old(roomPlayers)[roomId := members]
                  && roomId in rooms
                  && rooms == old(rooms)[roomId := room.(activeTime := now, players := |members|, creator := rooms[roomId].creator)]
                  && (room.creator == playerId && playerId in old(roomPlayers[roomId]) ==> rooms[roomId].creator in members)
                  && (room.creator != playerId || playerId !in old(roomPlayers[roomId]) ==> rooms[roomId].creator == room.creator)))
    }

    /** leaveRoom: nothing for an unknown player; otherwise Depart, and the
        room is torn down once its member set is empty. */
    method Leave(roomId: int, playerId: int, now: int)
      requires Valid() && roomId in rooms
      modifies this, GameOf(roomId)
      ensures Valid()
      ensures Left(roomId, playerId, now)
      ensures old(rooms[roomId].game).Some? && roomId !in rooms ==> old(rooms[roomId].game).value.closed
    {
      if playerId !in players {
        return;
      }
      Depart(roomId, playerId, now);
      if roomPlayers[roomId] == {} {
        DeleteRoom(roomId);
      }
    }

    /** LeaveRoom: leaveRoom on a registered room; nothing for an unknown one. */
    method LeaveRoom(roomId: int, playerId: int, now: int)
      requires Valid()
      modifies this, GameOf(roomId)
      ensures Valid()
      ensures roomId !in old(rooms) ==> unchanged(this)
      ensures roomId in old(rooms) ==> Left(roomId, playerId, now)
      ensures roomId in old(rooms) && old(rooms[roomId].game).Some? && roomId !in rooms ==> old(rooms[roomId].game).value.closed
    {
      if roomId in rooms {
        Leave(roomId, playerId, now);
      }
    }

    /** roomCancel: tears the room down when it is stale, otherwise changes nothing. */
    method RoomCancel(roomId: int, now: int)
      requires Valid() && roomId in rooms
      modifies this, GameOf(roomId)
      ensures Valid()
      ensures old(Stale(roomId, now)) ==>
        rooms == old(rooms) - {roomId} && roomPlayers == old(roomPlayers) - {roomId} && players == old(players) && roomIds == old(roomIds)
      ensures !old(Stale(roomId, now)) ==> unchanged(this)
      ensures old(rooms[roomId].game).Some? && roomId !in rooms ==> old(rooms[roomId].game).value.closed
    {
      if rooms[roomId].activeTime + Day < now {
        DeleteRoom(roomId);
        return;
      }
      var living := AnyOnline(roomPlayers[roomId]);
      if !living {
        DeleteRoom(roomId);
      }
    }

    /** offline: a member whose connection dropped leaves a waiting room
        (a running room keeps it seated), then the room is checked for
        staleness. No other room and no other player record changes. */
    method Offline(roomId: int, playerId: int, now: int)
      requires Valid()
      modifies this, GameOf(roomId)
      ensures Valid()
      ensures roomIds == old(roomIds)
      ensures roomId !in old(rooms) ==> unchanged(this)
      ensures roomId in old(rooms) ==>
        var left := old(rooms[roomId].state) == Waiting && playerId in old(players);
        var handover := left && old(rooms[roomId].creator) == playerId && playerId in old(roomPlayers[roomId]);
        var members := if left then old(roomPlayers[roomId]) - {playerId} else old(roomPlayers[roomId]);
        var active := if left then now else old(rooms[roomId].activeTime);
        && players == (if left && playerId in old(roomPlayers[roomId]) then old(players)[playerId := old(players[playerId]).(roomId := 0)] else old(players))
        && rooms - {roomId} == old(rooms) - {roomId}
        && roomPlayers - {roomId} == old(roomPlayers) - {roomId}
        && (roomId in rooms <==> !(active + Day < now) && exists m :: m in members && old(players[m]).online)
        && (roomId in rooms ==>
              && roomPlayers[roomId] == members
              && rooms[roomId] == old(rooms[roomId]).(activeTime := active, players := |members|, creator := rooms[roomId].creator)
              && (handover ==> rooms[roomId].creator in members)
              && (!handover ==> rooms[roomId].creator == old(rooms[roomId].creator)))
      ensures roomId in old(rooms) && old(rooms[roomId].game).Some? && roomId !in rooms ==> old(rooms[roomId].game).value.closed
    {
      if roomId !in rooms {
        return;
      }
      ghost var before := players;
      if rooms[roomId].state == Waiting {
        Leave(roomId, playerId, now);
      }
      if roomId in rooms {
        assert forall m :: m in roomPlayers[roomId] ==> players[m].online == before[m].online;
        RoomCancel(roomId, now);
      }
    }

    /** Player.Offline: the player goes offline; in its room a
        disconnect notice is broadcast, a waiting room loses the player,
        and the room is checked for staleness. Because the broadcast has
        just refreshed the room's activity, the room survives exactly when
        another member is still online. No other room and no other player
        record changes. */
    method PlayerOffline(playerId: int, now: int)
      requires Valid() && playerId in players
      modifies this, GameOf(players[playerId].roomId)
      ensures Valid()
      ensures roomIds == old(roomIds)
      ensures var roomId := old(players[playerId].roomId);
        var gone := roomId in old(rooms) && old(rooms[roomId].state) == Waiting && playerId in old(roomPlayers[roomId]);
        players == old(players)[playerId := old(players[playerId]).(online := false, roomId := if gone then 0 else roomId)]
      ensures var roomId := old(players[playerId].roomId);
        roomId !in old(rooms) ==> rooms == old(rooms) && roomPlayers == old(roomPlayers)
      ensures var roomId := old(players[playerId].roomId);
        roomId in old(rooms) ==>
        var waiting := old(rooms[roomId].state) == Waiting;
        var handover := waiting && old(rooms[roomId].creator) == playerId && playerId in old(roomPlayers[roomId]);
        var members := if waiting then old(roomPlayers[roomId]) - {playerId} else old(roomPlayers[roomId]);
        && rooms - {roomId} == old(rooms) - {roomId}
        && roomPlayers - {roomId} == old(roomPlayers) - {roomId}
        && (roomId in rooms <==> exists m :: m in members && m != playerId && old(players[m]).online)
        && (roomId in rooms ==>
              && roomPlayers[roomId] == members
              && rooms[roomId] == old(rooms[roomId]).(activeTime := now, players := |members|, creator := rooms[roomId].creator)
              && (handover ==> rooms[roomId].creator in members)
              && (!handover ==> rooms[roomId].creator == old(rooms[roomId].creator)))
      ensures var roomId := old(players[playerId].roomId);
        roomId in old(rooms) && old(rooms[roomId].game).Some? && roomId !in rooms ==> old(rooms[roomId].game).value.closed
    {
      var player := players[playerId];
      players := players[playerId := player.(online := false)];
      var roomId := player.roomId;
      if roomId !in rooms {
        return;
      }
      var _ := Broadcast(roomId, player.name + " lost connection!\n", {}, now);
      Offline(roomId, playerId, now);
    }

    /** Stores a room property, but only under a whitelisted key; any other
        key leaves the properties unchanged. */
    method SetProperty(roomId: int, key: string, v: bool)
      requires Valid() && roomId in rooms
      modifies this
      ensures Valid()
      ensures roomPlayers == old(roomPlayers) && players == old(players) && roomIds == old(roomIds)
      ensures rooms == old(rooms)[roomId := old(rooms[roomId]).(properties := rooms[roomId].properties)]
      ensures key in RoomPropsKeys ==> rooms[roomId].properties == old(rooms[roomId].properties)[key := v]
      ensures key !in RoomPropsKeys ==> rooms[roomId].properties == old(rooms[roomId].properties)
      ensures rooms[roomId].GetProperty(key) == if key in RoomPropsKeys then v else old(rooms[roomId].GetProperty(key))
      ensures key in RoomPropsKeys ==> key in rooms[roomId].GetProperties() && rooms[roomId].GetProperties()[key] == v
    {
      if key in RoomPropsKeys {
        var room := rooms[roomId];
        rooms := rooms[roomId := room.(properties := room.properties[key := v])];
      }
    }

    /** getRoom: the registered room of an id, if any; under the registry
        invariant it carries that id and counts its member set. */
    function GetRoom(id: int): (r: Option<Room>)
      requires Valid()
      reads this
      ensures r.Some? <==> id in rooms
      ensures r.Some? ==> r.value == rooms[id] && r.value.id == id && r.value.players == |roomPlayers[id]|
    {
      if id in rooms then Some(rooms[id]) else None
    }

    /** getPlayer: the record of a connected player, if any; it carries
        the id it is looked up by. */
    function GetPlayer(id: int): (r: Option<Player>)
      requires Valid()
      reads this
      ensures r.Some? <==> id in players
      ensures r.Some? ==> r.value == players[id] && r.value.id == id
    {
      if id in players then Some(players[id]) else None
    }

    /** The room side of a win: a registered room drops its game and waits
        for a new one; an unknown room is left alone. */
    method EndGame(roomId: int)
      requires Valid()
      modifies this`rooms
      ensures Valid()
      ensures roomId in old(rooms) ==> rooms == old(rooms)[roomId := old(rooms[roomId]).(game := None, state := Waiting)]
      ensures roomId !in old(rooms) ==> rooms == old(rooms)
    {
      if roomId in rooms {
        var room := rooms[roomId];
        rooms := rooms[roomId := room.(game := None, state := Waiting)];
      }
    }

    /** The periodic reaper: every registered room is checked once; exactly
        the stale ones are torn down. */
    method Sweep(now: int)
      requires Valid()
      modifies this, Games()
      ensures Valid()
      ensures players == old(players) && roomIds == old(roomIds)
      ensures rooms.Keys <= old(rooms).Keys
      ensures forall id :: id in old(rooms) ==> (id in rooms <==> !old(Stale(id, now)))
      ensures forall id :: id in rooms ==> rooms[id] == old(rooms[id]) && roomPlayers[id] == old(roomPlayers[id])
    {
      var left := rooms.Keys;
      while left != {}
        invariant Valid()
        invariant left <= old(rooms).Keys
        invariant players == old(players) && roomIds == old(roomIds)
        invariant rooms.Keys <= old(rooms).Keys
        invariant forall id :: id in left ==> id in rooms
        invariant forall id :: id in rooms ==> rooms[id] == old(rooms[id]) && roomPlayers[id] == old(roomPlayers[id])
        invariant forall id :: id in old(rooms) && id !in left ==> (id in rooms <==> !old(Stale(id, now)))
        decreases left
      {
        NonEmptyHasMember(left);
        var id :| id in left;
        assert Stale(id, now) == old(Stale(id, now));
        RoomCancel(id, now);
        left := left - {id};
      }
    }
  }
}
