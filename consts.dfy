/** Constants of the server shared by the registry and the turn engine:
    the error values returned to players, the two room states, the
    whitelist of room property keys, and the length of a day on the
    model's clock. The file that defines them in the server (consts) is not
    part of this model, so the key strings below are stand-ins: only their
    distinctness and membership in the whitelist matter. */
module Consts {

  datatype Error =
    | ErrorsExist                   // unknown player (or the player asked to exit)
    | ErrorsRoomInvalid             // unknown room
    | ErrorsJoinFailForRoomRunning  // joining a room whose game is running
    | ErrorsRoomPlayersIsFull       // joining a room at capacity
    | ErrorsRoomPassword            // wrong room password
    | ErrorsGamePlayersInvalid      // the deal does not fit the seated players
    | ErrorsPokersFacesInvalid      // an answer that is not a playable hand
    | ErrorsHaveToPlay              // a master tried to pass

  datatype RoomState = Waiting | Running

  /** The game type a new room starts with. */
  const GameTypeClassic: int := 1

  const RoomPropsLaiZi: string := "lz"
  const RoomPropsDotShuffle: string := "ds"
  const RoomPropsSkill: string := "sk"

  /** The only property keys a room accepts. */
  const RoomPropsKeys: set<string> := {RoomPropsLaiZi, RoomPropsDotShuffle, RoomPropsSkill}

  /** Clock values are seconds; a room idle for more than a day is stale. */
  const Day: int := 24 * 60 * 60
}
