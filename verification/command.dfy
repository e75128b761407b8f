/**
 The `/control` command interpreter: one request `?var=<name>&val=<int>`
 becomes a list of PWM writes (`ledcWrite(channel, duty)`), possibly one
 sensor-setter call, a new drive speed and an HTTP response.

 Everything outside the handler is a parameter: how the HTTP server reads
 and splits the query string (`Query`), what the camera sensor is set to and
 what its setters return (`Sensor`), and the retained drive speed.
 */
module Command {
  import opened Options
  import CAtoi

  /** The drive speed at process start (`int speed = 255;`). */
  const INITIAL_SPEED: int := 255
  const MAX_SPEED: int := 255

  /** PWM channels. Which wheel each motor channel turns, and in which
      direction, is read off the motion each `car` value is labelled with. */
  const LEFT_BACK: nat := 3
  const LEFT_AHEAD: nat := 4
  const RIGHT_AHEAD: nat := 5
  const RIGHT_BACK: nat := 6
  const FLASH: nat := 7
  const SERVO: nat := 8

  /** Servo limits: the control page's slider runs from 325 to 650. */
  const SERVO_MAX: int := 650
  const SERVO_LOW_CUTOFF: int := 225
  const SERVO_RESET: int := 325
  const SERVO_SLIDER_MIN: int := 325

  const DUTY_MODULUS: int := 0x1_0000_0000

  /** The `uint32_t` duty `ledcWrite` takes. */
  type Duty = d: int | 0 <= d < DUTY_MODULUS

  /** One `ledcWrite(channel, duty)` call. */
  datatype Write = Write(channel: nat, duty: Duty)

  /** A call into the camera sensor driver. */
  datatype SensorCall = SetFramesize(size: int) | SetQuality(quality: int)

  /** The camera sensor as the handler sees it: whether it is producing JPEG,
      and what its setters return (0 is success). */
  datatype Sensor = Sensor(isJpeg: bool, setterResult: int)

  /** How reading the query string ended. */
  datatype Query =
    | EmptyQuery                                          // no query string at all
    | NoMemory                                            // malloc of the query buffer failed
    | Unreadable                                          // httpd_req_get_url_query_str failed
    | Parsed(variable: Option<string>, value: Option<string>)  // the `var` and `val` lookups

  /** 404, 500, or 200 with `Access-Control-Allow-Origin: *` and an empty body. */
  datatype Response = NotFound | ServerError | OkEmptyWithCors

  datatype Reply = Reply(writes: seq<Write>, calls: seq<SensorCall>, speed: int, response: Response)

  /** The variables the interpreter knows; anything else is refused. */
  predicate Known(variable: string) {
    variable == "framesize" || variable == "quality" || variable == "flash"
    || variable == "speed" || variable == "servo" || variable == "car"
  }

  /** C's conversion of an `int` argument to a `uint32_t` parameter: reduction modulo 2^32. */
  function ToDuty(v: int): (d: Duty)
    ensures 0 <= v ==> (v < DUTY_MODULUS <==> d == v)
    ensures v < 0 && -DUTY_MODULUS <= v ==> d == v + DUTY_MODULUS
  {
    v % DUTY_MODULUS
  }

  function Min(a: int, b: int): int {
    if a <= b then a else b
  }

  function Max(a: int, b: int): int {
    if a >= b then a else b
  }

  /** The `speed` rule: the stored speed is the value clamped to [0, 255]. */
  function ClampSpeed(v: int): (s: int)
    ensures s == Min(Max(v, 0), MAX_SPEED)
    ensures 0 <= s <= MAX_SPEED
    ensures 0 <= v <= MAX_SPEED <==> s == v
  {
    if v > MAX_SPEED then MAX_SPEED
    else if v < 0 then 0
    else v
  }

  /**
   The `servo` rule as written: above 650 is cut to 650, below 225 is reset
   to 325, and everything from 225 to 650 passes through, so 225..324 stay
   below the control page's slider minimum.
   */
  function ServoAngle(v: int): (a: int)
    ensures SERVO_LOW_CUTOFF <= a <= SERVO_MAX
    ensures SERVO_LOW_CUTOFF <= v <= SERVO_MAX <==> a == v
    ensures v < SERVO_LOW_CUTOFF ==> a == SERVO_RESET
    ensures v > SERVO_MAX ==> a == SERVO_MAX
  {
    if v > SERVO_MAX then SERVO_MAX
    else if v < SERVO_LOW_CUTOFF then SERVO_RESET
    else v
  }

  /** The motions the control page's buttons send as `car` values 1 to 5. */
  datatype Motion = Forward | TurnLeft | Stop | TurnRight | Backward

  function MotionOf(val: int): (m: Option<Motion>)
    ensures m.Some? <==> 1 <= val <= 5
  {
    if val == 1 then Some(Forward)
    else if val == 2 then Some(TurnLeft)
    else if val == 3 then Some(Stop)
    else if val == 4 then Some(TurnRight)
    else if val == 5 then Some(Backward)
    else None
  }

  /** How one wheel turns. */
  datatype Spin = Ahead | Back | Still

  /** Differential drive: turning spins the wheels in opposite directions. */
  function Wheels(m: Motion): (Spin, Spin) {
    match m
    case Forward => (Ahead, Ahead)
    case TurnLeft => (Back, Ahead)
    case Stop => (Still, Still)
    case TurnRight => (Ahead, Back)
    case Backward => (Back, Back)
  }

  /** The H-bridge inputs of a wheel: the input of the requested direction
      gets the speed, the other gets 0. */
  function AheadDuty(s: Spin, speed: Duty): Duty {
    if s == Ahead then speed else 0
  }

  function BackDuty(s: Spin, speed: Duty): Duty {
    if s == Back then speed else 0
  }

  /** The four motor writes that make the wheels spin as `m` asks. */
  function DriveWrites(m: Motion, speed: Duty): seq<Write> {
    var (left, right) := Wheels(m);
    [Write(LEFT_BACK, BackDuty(left, speed)), Write(LEFT_AHEAD, AheadDuty(left, speed)),
     Write(RIGHT_AHEAD, AheadDuty(right, speed)), Write(RIGHT_BACK, BackDuty(right, speed))]
  }

  /** The `car` rule as the handler writes it, channel by channel. */
  function CarWrites(val: int, speed: Duty): (w: seq<Write>)
    ensures MotionOf(val).None? ==> w == []
    ensures MotionOf(val).Some? ==> w == DriveWrites(MotionOf(val).value, speed)
  {
    if val == 1 then [Write(3, 0), Write(4, speed), Write(5, speed), Write(6, 0)]
    else if val == 2 then [Write(3, speed), Write(4, 0), Write(5, speed), Write(6, 0)]
    else if val == 3 then [Write(3, 0), Write(4, 0), Write(5, 0), Write(6, 0)]
    else if val == 4 then [Write(3, 0), Write(4, speed), Write(5, 0), Write(6, speed)]
    else if val == 5 then [Write(3, speed), Write(4, 0), Write(5, 0), Write(6, speed)]
    else []
  }

  /** No `car` command ever drives both inputs of one H-bridge at once. */
  lemma NoShootThrough(val: int, speed: Duty)
    requires CarWrites(val, speed) != []
    ensures var w := CarWrites(val, speed);
            && |w| == 4
            && (w[0].duty == 0 || w[1].duty == 0)
            && (w[2].duty == 0 || w[3].duty == 0)
  {
  }

  /**
   Dispatch on the variable name, once `var` and `val` are read and `val`
   is decoded. Each name has one effect; an unknown name is refused with 500.
   */
  function Dispatch(variable: string, val: int, speed: int, sensor: Sensor): (r: Reply)
    ensures r.response != NotFound
    ensures r.response == ServerError <==>
              || !Known(variable)
              || (variable == "quality" && sensor.setterResult != 0)
              || (variable == "framesize" && sensor.isJpeg && sensor.setterResult != 0)
    ensures r.speed == if variable == "speed" then ClampSpeed(val) else speed
    ensures r.calls == if variable == "quality" then [SetQuality(val)]
                       else if variable == "framesize" && sensor.isJpeg then [SetFramesize(val)]
                       else []
    ensures r.writes == if variable == "flash" then [Write(FLASH, ToDuty(val))]
                        else if variable == "servo" then [Write(SERVO, 10 * ServoAngle(val))]
                        else if variable == "car" then CarWrites(val, ToDuty(speed))
                        else []
  {
    var (res, writes, calls, newSpeed) :=
      if variable == "framesize" then
        if sensor.isJpeg then (sensor.setterResult, [], [SetFramesize(val)], speed)
        else (0, [], [], speed)
      else if variable == "quality" then (sensor.setterResult, [], [SetQuality(val)], speed)
      else if variable == "flash" then (0, [Write(FLASH, ToDuty(val))], [], speed)
      else if variable == "speed" then (0, [], [], ClampSpeed(val))
      else if variable == "servo" then (0, [Write(SERVO, ToDuty(10 * ServoAngle(val)))], [], speed)
      else if variable == "car" then (0, CarWrites(val, ToDuty(speed)), [], speed)
      else (-1, [], [], speed);
    Reply(writes, calls, newSpeed, if res != 0 then ServerError else OkEmptyWithCors)
  }

  /** Both parameters were read, so the request reaches the dispatch. */
  predicate Dispatched(q: Query) {
    q.Parsed? && q.variable.Some? && q.value.Some?
  }

  /** `atoi` of the `val` text must be defined (fit in an `int`). */
  predicate ValueDefined(q: Query) {
    Dispatched(q) ==> CAtoi.Defined(q.value.value)
  }

  /**
   The whole `/control` handler. A request that does not reach the dispatch
   touches nothing: no PWM write, no sensor call, the speed stays.
   */
  function Handle(q: Query, speed: int, sensor: Sensor): (r: Reply)
    requires ValueDefined(q)
    ensures 0 <= speed <= MAX_SPEED ==> 0 <= r.speed <= MAX_SPEED
    ensures !Dispatched(q) ==> r.writes == [] && r.calls == [] && r.speed == speed
    ensures !Dispatched(q) ==> (r.response == ServerError <==> q == NoMemory)
    ensures r.response == NotFound <==> !Dispatched(q) && q != NoMemory
    ensures Dispatched(q) ==> r == Dispatch(q.variable.value, CAtoi.Atoi(q.value.value), speed, sensor)
  {
    match q
    case EmptyQuery => Reply([], [], speed, NotFound)
    case NoMemory => Reply([], [], speed, ServerError)
    case Unreadable => Reply([], [], speed, NotFound)
    case Parsed(variable, value) =>
      if variable.Some? && value.Some? then
        Dispatch(variable.value, CAtoi.Atoi(value.value), speed, sensor)
      else
        Reply([], [], speed, NotFound)
  }

  /** The servo duty never leaves [2250, 6500], and 225..324 give duties
      below what the control page's slider can ask for. */
  lemma ServoDutyRange(val: int, speed: int, sensor: Sensor)
    ensures var r := Dispatch("servo", val, speed, sensor);
            && |r.writes| == 1 && r.writes[0].channel == SERVO
            && 2250 <= r.writes[0].duty <= 6500
            && (r.writes[0].duty < 10 * SERVO_SLIDER_MIN <==> SERVO_LOW_CUTOFF <= val < SERVO_SLIDER_MIN)
  {
  }

  /** One request of a sequence served by the control endpoint. */
  datatype Request = Request(query: Query, sensor: Sensor)

  /** Everything a sequence of requests did: the PWM writes and sensor calls
      in order, the speed left in force, and one response per request. */
  datatype Session = Session(writes: seq<Write>, calls: seq<SensorCall>, speed: int, responses: seq<Response>)

  predicate AllDefined(reqs: seq<Request>) {
    forall i :: 0 <= i < |reqs| ==> ValueDefined(reqs[i].query)
  }

  /** Requests served one after another, the speed carried from one to the next. */
  function Serve(reqs: seq<Request>, speed: int): (s: Session)
    requires AllDefined(reqs)
    ensures |s.responses| == |reqs|
    ensures 0 <= speed <= MAX_SPEED ==> 0 <= s.speed <= MAX_SPEED
  {
    if reqs == [] then Session([], [], speed, [])
    else
      var r := Handle(reqs[0].query, speed, reqs[0].sensor);
      var rest := Serve(reqs[1..], r.speed);
      Session(r.writes + rest.writes, r.calls + rest.calls, rest.speed, [r.response] + rest.responses)
  }

  /** The value a request stores as the speed, if it is a `speed` command. */
  function SpeedSet(q: Query): Option<int> {
    if Dispatched(q) && q.variable.value == "speed" then Some(ClampSpeed(CAtoi.Atoi(q.value.value)))
    else None
  }

  /** The speed in force after `reqs`: the last `speed` command's clamped value,
      or `initial` when there was none. */
  function StoredSpeed(reqs: seq<Request>, initial: int): int {
    if reqs == [] then initial
    else if SpeedSet(reqs[|reqs| - 1].query).Some? then SpeedSet(reqs[|reqs| - 1].query).value
    else StoredSpeed(reqs[..|reqs| - 1], initial)
  }

  lemma HandleSpeed(q: Query, speed: int, sensor: Sensor)
    requires ValueDefined(q)
    ensures Handle(q, speed, sensor).speed == if SpeedSet(q).Some? then SpeedSet(q).value else speed
  {
  }

  /** Peeling the first request off: its effect on the speed becomes the new initial value. */
  lemma {:induction false} StoredSpeedFirst(reqs: seq<Request>, initial: int)
    requires reqs != []
    ensures StoredSpeed(reqs, initial)
         == StoredSpeed(reqs[1..], if SpeedSet(reqs[0].query).Some? then SpeedSet(reqs[0].query).value else initial)
  {
    var tail := reqs[1..];
    if |reqs| == 1 {
      assert tail == [] && reqs[..0] == [];
    } else {
      var init := reqs[..|reqs| - 1];
      assert init[1..] == tail[..|tail| - 1];
      assert init[0] == reqs[0];
      assert tail[|tail| - 1] == reqs[|reqs| - 1];
      StoredSpeedFirst(init, initial);
    }
  }

  /** After any sequence of requests the speed is the one the last `speed`
      command stored, or the starting speed (255 at power-up) if none did. */
  lemma {:induction false} SpeedIsLastStored(reqs: seq<Request>, initial: int)
    requires AllDefined(reqs)
    ensures Serve(reqs, initial).speed == StoredSpeed(reqs, initial)
  {
    if reqs != [] {
      var q := reqs[0].query;
      HandleSpeed(q, initial, reqs[0].sensor);
      var next := Handle(q, initial, reqs[0].sensor).speed;
      assert AllDefined(reqs[1..]) by {
        forall i | 0 <= i < |reqs[1..]| ensures ValueDefined(reqs[1..][i].query) {
          assert reqs[1..][i] == reqs[i + 1];
        }
      }
      SpeedIsLastStored(reqs[1..], next);
      StoredSpeedFirst(reqs, initial);
    }
  }

  /** A motion command drives the wheels at the speed the last `speed` command stored. */
  lemma CarUsesStoredSpeed(history: seq<Request>, val: int, sensor: Sensor)
    requires AllDefined(history)
    requires MotionOf(val).Some?
    ensures var speed := Serve(history, INITIAL_SPEED).speed;
            var r := Dispatch("car", val, speed, sensor);
            && r.response == OkEmptyWithCors
            && r.speed == speed
            && speed == StoredSpeed(history, INITIAL_SPEED)
            && r.writes == DriveWrites(MotionOf(val).value, speed)
  {
    SpeedIsLastStored(history, INITIAL_SPEED);
  }

  /** What each request of a sequence does on its own, handled at the speed
      the requests before it left in force. */
  function Replies(reqs: seq<Request>, initial: int): (rs: seq<Reply>)
    requires AllDefined(reqs)
    ensures |rs| == |reqs|
  {
    seq(|reqs|, i requires 0 <= i < |reqs| && ValueDefined(reqs[i].query) =>
                  Handle(reqs[i].query, StoredSpeed(reqs[..i], initial), reqs[i].sensor))
  }

  function AllWrites(rs: seq<Reply>): seq<Write> {
    if rs == [] then [] else rs[0].writes + AllWrites(rs[1..])
  }

  function AllCalls(rs: seq<Reply>): seq<SensorCall> {
    if rs == [] then [] else rs[0].calls + AllCalls(rs[1..])
  }

  /**
   Serving requests one after another is handling each on its own at the
   speed then in force: response `i` is request `i`'s response, and the
   writes and sensor calls are the requests' own, in request order.
   */
  lemma {:induction false} ServeIsReplies(reqs: seq<Request>, initial: int)
    requires AllDefined(reqs)
    ensures var s := Serve(reqs, initial);
            var rs := Replies(reqs, initial);
            && (forall i :: 0 <= i < |reqs| ==> s.responses[i] == rs[i].response)
            && s.writes == AllWrites(rs)
            && s.calls == AllCalls(rs)
  {
    if reqs != [] {
      var r := Handle(reqs[0].query, initial, reqs[0].sensor);
      RepliesTail(reqs, initial);
      ServeIsReplies(reqs[1..], r.speed);
    }
  }

  /** The first request is handled at the starting speed, and the rest at
      the speed it leaves. */
  lemma RepliesTail(reqs: seq<Request>, initial: int)
    requires AllDefined(reqs) && reqs != []
    ensures AllDefined(reqs[1..])
    ensures var r := Handle(reqs[0].query, initial, reqs[0].sensor);
            && Replies(reqs, initial)[0] == r
            && Replies(reqs, initial)[1..] == Replies(reqs[1..], r.speed)
  {
    var q := reqs[0].query;
    var r := Handle(q, initial, reqs[0].sensor);
    var tail := reqs[1..];
    assert AllDefined(tail) by {
      forall i | 0 <= i < |tail| ensures ValueDefined(tail[i].query) {
        assert tail[i] == reqs[i + 1];
      }
    }
    HandleSpeed(q, initial, reqs[0].sensor);
    var rs := Replies(reqs, initial);
    var rest := Replies(tail, r.speed);
    forall i | 0 <= i < |rest| ensures rs[i + 1] == rest[i] {
      StoredSpeedAfterFirst(reqs, initial, i);
    }
    assert reqs[..0] == [];
    assert rs[1..] == rest;
  }

  /** The speed in force before request `i + 1` is the one the tail's
      request `i` sees, starting from the speed the first request left. */
  lemma StoredSpeedAfterFirst(reqs: seq<Request>, initial: int, i: nat)
    requires i + 1 < |reqs|
    ensures StoredSpeed(reqs[..i + 1], initial)
            == StoredSpeed(reqs[1..][..i], if SpeedSet(reqs[0].query).Some? then SpeedSet(reqs[0].query).value else initial)
  {
    var pre := reqs[..i + 1];
    assert pre[1..] == reqs[1..][..i] && pre[0] == reqs[0];
    StoredSpeedFirst(pre, initial);
  }
}
