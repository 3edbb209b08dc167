/** The server's table of active rooms in server/src/game.ts: rooms are created
    under a fresh six-digit code, looked up and deleted by that code. */
module Store {
  import opened Types
  import opened Text
  import opened Game

  const MinRoomCode := 100000
  const RoomCodeSpan := 900000

  /** `Math.floor(100000 + r * 900000)`, the number behind the code drawn from
      one `Math.random()` value `r`. */
  function CodeNumber(r: real): (n: nat)
    requires 0.0 <= r < 1.0
    ensures MinRoomCode <= n < MinRoomCode + RoomCodeSpan
  {
    (MinRoomCode as real + r * RoomCodeSpan as real).Floor
  }

  /** `Math.floor(100000 + r * 900000).toString()`: always six digits, never with a
      leading zero, and reading it back gives the drawn number. */
  function RoomCode(r: real): (code: string)
    requires 0.0 <= r < 1.0
    ensures |code| == 6 && AllDigits(code) && code[0] != '0'
    ensures ParseDecimal(code) == CodeNumber(r)
  {
    var n := CodeNumber(r);
    assert Pow10(5) == MinRoomCode && Pow10(6) == MinRoomCode + RoomCodeSpan;
    DecimalStringLength(n, 6);
    ParseDecimalString(n);
    DecimalString(n)
  }

  /** `code` is the decimal rendering of a number from 100000 to 999999: six
      digits, the first of which is not 0. */
  ghost predicate IsRoomCode(code: string) {
    && |code| == 6 && AllDigits(code) && code[0] != '0'
    && MinRoomCode <= ParseDecimal(code) < MinRoomCode + RoomCodeSpan
  }

  /** Every six-digit number from 100000 to 999999 is the code of some draw. */
  lemma EveryCodeIsDrawable(n: int)
    requires MinRoomCode <= n < MinRoomCode + RoomCodeSpan
    ensures var r := (n - MinRoomCode) as real / RoomCodeSpan as real;
      0.0 <= r < 1.0 && RoomCode(r) == DecimalString(n)
  {
    var r := (n - MinRoomCode) as real / RoomCodeSpan as real;
    assert r * RoomCodeSpan as real == (n - MinRoomCode) as real;
    assert MinRoomCode as real + r * RoomCodeSpan as real == n as real;
  }

  /** The `rooms` map of the server. */
  class RoomStore {
    var rooms: map<string, Room>

    /** Every room is stored under its own code. */
    ghost predicate Valid()
      reads this
    {
      forall code :: code in rooms ==> rooms[code].id == code
    }

    constructor ()
      ensures Valid() && rooms == map[]
    {
      rooms := map[];
    }

    /** `generateRoomCode`: draws codes from the random values `draws` in turn
        until one is not in use. Randomness is a parameter: the loop ends because
        some draw yields a free code. */
    method GenerateRoomCode(draws: seq<real>) returns (code: string)
      requires forall i :: 0 <= i < |draws| ==> 0.0 <= draws[i] < 1.0
      requires exists i :: 0 <= i < |draws| && RoomCode(draws[i]) !in rooms
      ensures code !in rooms
      ensures exists i :: 0 <= i < |draws| && code == RoomCode(draws[i])
                          && (forall j :: 0 <= j < i ==> RoomCode(draws[j]) in rooms)
      ensures IsRoomCode(code)
    {
      ghost var w :| 0 <= w < |draws| && RoomCode(draws[w]) !in rooms;
      var i := 0;
      code := RoomCode(draws[0]);
      while code in rooms
        invariant 0 <= i <= w
        invariant code == RoomCode(draws[i])
        invariant forall j :: 0 <= j < i ==> RoomCode(draws[j]) in rooms
        decreases w - i
      {
        i := i + 1;
        code := RoomCode(draws[i]);
      }
    }

    /** `createRoom`: a new lobby under a fresh code, with the default settings,
        stored in the map. */
    method CreateRoom(hostId: string, questions: seq<Question>, now: int, draws: seq<real>) returns (room: Room)
      requires Valid()
      requires forall i :: 0 <= i < |draws| ==> 0.0 <= draws[i] < 1.0
      requires exists i :: 0 <= i < |draws| && RoomCode(draws[i]) !in rooms
      modifies this
      ensures Valid()
      ensures fresh(room) && room.Valid()
      ensures room.id !in old(rooms) && rooms == old(rooms)[room.id := room]
      ensures IsRoomCode(room.id) && exists i :: 0 <= i < |draws| && room.id == RoomCode(draws[i])
      ensures room.hostId == hostId && room.questions == questions && room.createdAt == now
      ensures room.status == Lobby && room.players == map[] && room.order == []
      ensures room.currentQuestionIndex == -1 && room.questionStartTime == None
    {
      var code := GenerateRoomCode(draws);
      room := new Room(code, hostId, questions, now);
      rooms := rooms[code := room];
    }

    /** `getRoom`. */
    function GetRoom(roomId: string): (r: Option<Room>)
      reads this
      requires Valid()
      ensures r.Some? <==> roomId in rooms
      ensures r.Some? ==> r.value == rooms[roomId] && r.value.id == roomId
    {
      if roomId in rooms then Some(rooms[roomId]) else None
    }

    /** `deleteRoom`: removes the code, a no-op when it is absent. */
    method DeleteRoom(roomId: string)
      requires Valid()
      modifies this
      ensures Valid()
      ensures rooms == old(rooms) - {roomId}
      ensures GetRoom(roomId) == None
    {
      rooms := rooms - {roomId};
    }
  }
}
