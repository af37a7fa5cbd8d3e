/**
 * The master's side of the half-duplex line: the two direction pins (Driver
 * Enable and the active-low Receiver Enable), the guard delays, the bytes it
 * sends, and its bounded polling for an answer.
 *
 * Everything the driver does to the outside world is recorded as an `Event`
 * in a trace. The slave side is a sequence of `Reply` values, one for each
 * frame the master reads an answer to: the bytes that land in the receive
 * buffer during each of the master's 10 ms polling waits.
 */
module Master {
  import Frame
  import Response

  // ---------------------------------------------------------------------------
  // Pins and events
  // ---------------------------------------------------------------------------

  /** Levels of the Driver Enable and Receiver Enable pins. */
  datatype Pins = Pins(de: nat, re: nat)

  /** Driver on, receiver off: the master owns the line. */
  const Transmitting: Pins := Pins(1, 1)

  /** Driver off, receiver on: the slave may answer. */
  const Receiving: Pins := Pins(0, 0)

  /** Pin levels before anything was written to them. */
  const PowerOn: Pins := Pins(0, 0)

  datatype Event =
    | De(level: nat)   // the Driver Enable pin is set
    | Re(level: nat)   // the Receiver Enable pin is set
    | Wait(us: int)    // a busy wait of `us` microseconds
    | Tx(b: bv8)       // one byte handed to the UART
    | Rx(value: int)   // one call of the read routine, with its result
    | Flushed          // the receive buffer is discarded

  function After(e: Event, p: Pins): Pins
  {
    match e
    case De(level) => p.(de := level)
    case Re(level) => p.(re := level)
    case _ => p
  }

  /** Bytes go out only while transmitting; answers are read only while receiving. */
  predicate Allowed(e: Event, p: Pins)
  {
    match e
    case Tx(_) => p == Transmitting
    case Rx(_) => p == Receiving
    case _ => true
  }

  /** Pin levels after `events`, starting from `p`. */
  function Final(events: seq<Event>, p: Pins): Pins
    decreases |events|
  {
    if events == [] then p else Final(events[1..], After(events[0], p))
  }

  /** Every event of `events`, replayed from `p`, happens with the pins it needs. */
  predicate HalfDuplex(events: seq<Event>, p: Pins)
    decreases |events|
  {
    events == [] || (Allowed(events[0], p) && HalfDuplex(events[1..], After(events[0], p)))
  }

  /** The bytes sent, in order. */
  function TxBytes(events: seq<Event>): seq<bv8>
    decreases |events|
  {
    if events == [] then []
    else (if events[0].Tx? then [events[0].b] else []) + TxBytes(events[1..])
  }

  /** The number of reads. */
  function Reads(events: seq<Event>): nat
    decreases |events|
  {
    if events == [] then 0 else (if events[0].Rx? then 1 else 0) + Reads(events[1..])
  }

  /**
   * The direction pins move together: every `De(l)` is directly followed by
   * `Re(l)`, and every `Re` directly follows such a `De`.
   */
  predicate Lockstep(events: seq<Event>)
    decreases |events|
  {
    if events == [] then true
    else if events[0].De? then |events| >= 2 && events[1] == Re(events[0].level) && Lockstep(events[2..])
    else !events[0].Re? && Lockstep(events[1..])
  }

  /** Only `De` and `Re` events move the pins. */
  lemma PinsMoveOnlyWithPinEvents(e: Event, p: Pins)
    ensures !e.De? && !e.Re? <==> forall q :: After(e, q) == q
    ensures e.De? ==> After(e, p) == Pins(e.level, p.re)
    ensures e.Re? ==> After(e, p) == Pins(p.de, e.level)
  {
    if e.De? {
      assert After(e, Pins(e.level + 1, 0)) != Pins(e.level + 1, 0);
    } else if e.Re? {
      assert After(e, Pins(0, e.level + 1)) != Pins(0, e.level + 1);
    }
  }

  /** In a lockstep log, every `De` is followed by the matching `Re` and every `Re` follows the matching `De`. */
  lemma {:induction false} LockstepAt(events: seq<Event>, i: nat)
    requires Lockstep(events) && i < |events|
    ensures events[i].De? ==> i + 1 < |events| && events[i + 1] == Re(events[i].level)
    ensures events[i].Re? ==> 0 < i && events[i - 1] == De(events[i].level)
    decreases |events|
  {
    if events[0].De? {
      if i >= 2 {
        LockstepAt(events[2..], i - 2);
      }
    } else if i >= 1 {
      LockstepAt(events[1..], i - 1);
    }
  }

  /** Replaying a lockstep log from equal pin levels ends at equal pin levels. */
  lemma {:induction false} LockstepLevels(events: seq<Event>, p: Pins)
    requires Lockstep(events) && p.de == p.re
    ensures Final(events, p).de == Final(events, p).re
    decreases |events|
  {
    if events != [] {
      if events[0].De? {
        var l := events[0].level;
        assert events[1..][1..] == events[2..];
        LockstepLevels(events[2..], Pins(l, l));
      } else {
        LockstepLevels(events[1..], p);
      }
    }
  }

  lemma {:induction false} LockstepAppend(a: seq<Event>, b: seq<Event>)
    requires Lockstep(a) && Lockstep(b)
    ensures Lockstep(a + b)
    decreases |a|
  {
    if a == [] {
      assert a + b == b;
    } else if a[0].De? {
      assert (a + b)[0] == a[0] && (a + b)[1] == a[1];
      assert (a + b)[2..] == a[2..] + b;
      LockstepAppend(a[2..], b);
    } else {
      assert (a + b)[0] == a[0];
      assert (a + b)[1..] == a[1..] + b;
      LockstepAppend(a[1..], b);
    }
  }

  /** Replaying, counting and collecting bytes all distribute over concatenation. */
  lemma {:induction false} EventsAppend(a: seq<Event>, b: seq<Event>, p: Pins)
    ensures Final(a + b, p) == Final(b, Final(a, p))
    ensures HalfDuplex(a + b, p) <==> HalfDuplex(a, p) && HalfDuplex(b, Final(a, p))
    ensures TxBytes(a + b) == TxBytes(a) + TxBytes(b)
    ensures Reads(a + b) == Reads(a) + Reads(b)
    decreases |a|
  {
    if a != [] {
      assert (a + b)[0] == a[0];
      assert (a + b)[1..] == a[1..] + b;
      EventsAppend(a[1..], b, After(a[0], p));
    } else {
      assert a + b == b;
    }
  }

  /** One `Tx` event per byte of `s`. */
  function Bytes(s: seq<bv8>): (events: seq<Event>)
    ensures |events| == |s|
  {
    seq(|s|, i requires 0 <= i < |s| => Tx(s[i]))
  }

  /** Sending bytes leaves the pins alone, needs them transmitting, and sends exactly those bytes. */
  lemma {:induction false} BytesFacts(s: seq<bv8>, p: Pins)
    ensures Final(Bytes(s), p) == p
    ensures HalfDuplex(Bytes(s), p) <==> s == [] || p == Transmitting
    ensures TxBytes(Bytes(s)) == s
    ensures Reads(Bytes(s)) == 0
    ensures Lockstep(Bytes(s))
    decreases |s|
  {
    if s != [] {
      assert Bytes(s)[0] == Tx(s[0]);
      assert Bytes(s)[1..] == Bytes(s[1..]);
      BytesFacts(s[1..], p);
    }
  }

  // ---------------------------------------------------------------------------
  // One attempt
  // ---------------------------------------------------------------------------

  /** Taking the line: driver on, receiver off, guard time. */
  function Seize(delay: int): seq<Event>
  {
    [De(1), Re(1), Wait(delay)]
  }

  /** Handing the line over: guard time, driver off, receiver on, and the read that follows. */
  function Release(delay: int, value: int): seq<Event>
  {
    [Wait(delay), De(0), Re(0), Rx(value)]
  }

  /** Writing a frame: flush the receive buffer, then send the bytes in order. */
  function Send(frame: seq<bv8>): seq<Event>
  {
    [Flushed] + Bytes(frame)
  }

  /**
   * One attempt at a transaction: take the line, wait the guard time, send
   * the frame, wait again, hand the line to the slave and read its answer.
   */
  function Attempt(frame: seq<bv8>, delay: int, value: int): seq<Event>
  {
    Seize(delay) + Send(frame) + Release(delay, value)
  }

  /** The events of one attempt, logged one by one. */
  lemma AttemptLogged(t: seq<Event>, frame: seq<bv8>, delay: int, value: int)
    ensures t + [De(1)] + [Re(1)] + [Wait(delay)] + [Flushed] + Bytes(frame) + [Wait(delay)] + [De(0)] + [Re(0)] + [Rx(value)]
         == t + Attempt(frame, delay, value)
  {
    assert t + [De(1)] + [Re(1)] + [Wait(delay)] == t + Seize(delay);
    assert t + Seize(delay) + [Flushed] + Bytes(frame) == t + Seize(delay) + Send(frame);
  }

  /** Replaying, counting and collecting bytes on an event followed by more. */
  lemma Cons(e: Event, rest: seq<Event>, p: Pins)
    ensures Final([e] + rest, p) == Final(rest, After(e, p))
    ensures HalfDuplex([e] + rest, p) <==> Allowed(e, p) && HalfDuplex(rest, After(e, p))
    ensures TxBytes([e] + rest) == (if e.Tx? then [e.b] else []) + TxBytes(rest)
    ensures Reads([e] + rest) == (if e.Rx? then 1 else 0) + Reads(rest)
  {
    assert ([e] + rest)[1..] == rest;
  }

  lemma SeizeFacts(delay: int, p: Pins)
    ensures HalfDuplex(Seize(delay), p) && Final(Seize(delay), p) == Transmitting
    ensures TxBytes(Seize(delay)) == [] && Reads(Seize(delay)) == 0 && Lockstep(Seize(delay))
  {
    var t: seq<Event> := [Wait(delay)];
    assert t == [Wait(delay)] + [];
    Cons(Wait(delay), [], Transmitting);
    Cons(Re(1), t, Pins(1, p.re));
    Cons(De(1), [Re(1)] + t, p);
    assert Seize(delay) == [De(1)] + ([Re(1)] + t);
    assert Seize(delay)[2..] == t && t[1..] == [];
  }

  /** Sending leaves the pins alone, needs them transmitting and sends exactly the frame. */
  lemma SendFacts(frame: seq<bv8>)
    ensures HalfDuplex(Send(frame), Transmitting) && Final(Send(frame), Transmitting) == Transmitting
    ensures TxBytes(Send(frame)) == frame && Reads(Send(frame)) == 0 && Lockstep(Send(frame))
  {
    BytesFacts(frame, Transmitting);
    Cons(Flushed, Bytes(frame), Transmitting);
    assert Send(frame)[1..] == Bytes(frame);
  }

  lemma ReleaseFacts(delay: int, value: int)
    ensures HalfDuplex(Release(delay, value), Transmitting) && Final(Release(delay, value), Transmitting) == Receiving
    ensures TxBytes(Release(delay, value)) == [] && Reads(Release(delay, value)) == 1 && Lockstep(Release(delay, value))
  {
    var t: seq<Event> := [Rx(value)];
    assert t == [Rx(value)] + [];
    Cons(Rx(value), [], Receiving);
    Cons(Re(0), t, Pins(0, 1));
    Cons(De(0), [Re(0)] + t, Transmitting);
    Cons(Wait(delay), [De(0)] + ([Re(0)] + t), Transmitting);
    assert Release(delay, value) == [Wait(delay)] + ([De(0)] + ([Re(0)] + t));
    assert t[1..] == [] && Lockstep(t);
    assert Release(delay, value)[1..] == [De(0), Re(0)] + t;
    assert ([De(0), Re(0)] + t)[2..] == t;
  }

  /** An attempt is half-duplex from any pin state, leaves the line to the slave, sends the frame once and reads once. */
  lemma AttemptFacts(frame: seq<bv8>, delay: int, value: int, p: Pins)
    ensures HalfDuplex(Attempt(frame, delay, value), p)
    ensures Final(Attempt(frame, delay, value), p) == Receiving
    ensures TxBytes(Attempt(frame, delay, value)) == frame
    ensures Reads(Attempt(frame, delay, value)) == 1
    ensures Lockstep(Attempt(frame, delay, value))
  {
    SeizeFacts(delay, p);
    SendFacts(frame);
    ReleaseFacts(delay, value);
    EventsAppend(Seize(delay), Send(frame), p);
    EventsAppend(Seize(delay) + Send(frame), Release(delay, value), p);
    LockstepAppend(Seize(delay), Send(frame));
    LockstepAppend(Seize(delay) + Send(frame), Release(delay, value));
  }

  /** The events that close a transaction answered without a CRC error: the master takes the line back. */
  const Reclaim: seq<Event> := [De(1), Re(1)]

  lemma ReclaimFacts(p: Pins)
    ensures HalfDuplex(Reclaim, p) && Final(Reclaim, p) == Transmitting
    ensures TxBytes(Reclaim) == [] && Reads(Reclaim) == 0 && Lockstep(Reclaim)
  {
    assert Reclaim[1..] == [Re(1)] && Reclaim[1..][1..] == [] && Reclaim[2..] == [];
  }

  // ---------------------------------------------------------------------------
  // Replies and polling
  // ---------------------------------------------------------------------------

  /** The bytes landing in the receive buffer during each of the master's polling waits. */
  datatype Reply = Reply(arrivals: seq<seq<bv8>>)

  /** The master waits 10 ms up to this many times. */
  const Polls: nat := 10

  /** It reads once more than this many bytes are buffered. */
  const Threshold: nat := 5

  /** How many bytes one read takes: what is buffered, at most a receive buffer's worth. */
  function Take(b: seq<bv8>): (n: nat)
    ensures n <= |b| && n <= Response.BufferSize
    ensures n == |b| || n == Response.BufferSize
  {
    if |b| <= Response.BufferSize then |b| else Response.BufferSize
  }

  function Arrival(r: Reply, i: nat): seq<bv8>
  {
    if i < |r.arrivals| then r.arrivals[i] else []
  }

  /** Outcome of the polling loop: enough bytes to read, or the buffer left after the last wait. */
  datatype Poll = Ready(buffer: seq<bv8>) | Quiet(buffer: seq<bv8>)

  /** Polling from wait `i` on, with `rx` buffered. */
  function Search(rx: seq<bv8>, r: Reply, i: nat): (p: Poll)
    requires i <= Polls
    ensures p.Ready? ==> |p.buffer| > Threshold
    decreases Polls - i
  {
    if i == Polls then Quiet(rx)
    else
      var b := rx + Arrival(r, i);
      if |b| > Threshold then Ready(b) else Search(b, r, i + 1)
  }

  /** The buffer after the first `n` polling waits, starting from `rx`. */
  function Gathered(rx: seq<bv8>, r: Reply, n: nat): seq<bv8>
    decreases n
  {
    if n == 0 then rx else Gathered(rx, r, n - 1) + Arrival(r, n - 1)
  }

  /** No wait after the `i`-th and up to the `j`-th brings the buffer past the threshold. */
  predicate StaysBelow(rx: seq<bv8>, r: Reply, i: nat, j: nat)
  {
    forall n :: i < n <= j ==> |Gathered(rx, r, n)| <= Threshold
  }

  lemma StaysBelowStep(rx: seq<bv8>, r: Reply, i: nat, j: nat)
    requires i < j
    ensures StaysBelow(rx, r, i, j) <==> |Gathered(rx, r, i + 1)| <= Threshold && StaysBelow(rx, r, i + 1, j)
  {
  }

  /** Polling from wait `i` on, with the buffer gathered so far, stays quiet exactly when the buffer stays small. */
  lemma {:induction false} QuietFrom(rx: seq<bv8>, r: Reply, i: nat)
    requires i <= Polls
    ensures Search(Gathered(rx, r, i), r, i).Quiet? <==> StaysBelow(rx, r, i, Polls)
    ensures Search(Gathered(rx, r, i), r, i).Quiet? ==> Search(Gathered(rx, r, i), r, i) == Quiet(Gathered(rx, r, Polls))
    decreases Polls - i
  {
    if i < Polls {
      var g := Gathered(rx, r, i + 1);
      assert g == Gathered(rx, r, i) + Arrival(r, i);
      StaysBelowStep(rx, r, i, Polls);
      if |g| <= Threshold {
        QuietFrom(rx, r, i + 1);
      }
    }
  }

  /** Polling from wait `i` on stops at the first later wait `n` that brings the buffer past the threshold. */
  lemma {:induction false} StopsAt(rx: seq<bv8>, r: Reply, i: nat, n: nat)
    requires i < n <= Polls && |Gathered(rx, r, n)| > Threshold && StaysBelow(rx, r, i, n - 1)
    ensures Search(Gathered(rx, r, i), r, i) == Ready(Gathered(rx, r, n))
    decreases n - i
  {
    var g := Gathered(rx, r, i + 1);
    assert g == Gathered(rx, r, i) + Arrival(r, i);
    if i + 1 < n {
      assert |g| <= Threshold;
      assert StaysBelow(rx, r, i + 1, n - 1);
      StopsAt(rx, r, i + 1, n);
    }
  }

  /**
   * The read finds nothing exactly when the buffer never gets past five
   * bytes within the ten waits, and then keeps all it gathered; otherwise
   * it stops at the first wait where it does, with the buffer up to then.
   */
  lemma PollOutcome(rx: seq<bv8>, r: Reply)
    ensures Search(rx, r, 0).Quiet? <==> StaysBelow(rx, r, 0, Polls)
    ensures Search(rx, r, 0).Quiet? ==> Search(rx, r, 0) == Quiet(Gathered(rx, r, Polls))
    ensures forall n :: 0 < n <= Polls && |Gathered(rx, r, n)| > Threshold && StaysBelow(rx, r, 0, n - 1) ==>
      Search(rx, r, 0) == Ready(Gathered(rx, r, n))
  {
    QuietFrom(rx, r, 0);
    forall n | 0 < n <= Polls && |Gathered(rx, r, n)| > Threshold && StaysBelow(rx, r, 0, n - 1)
      ensures Search(rx, r, 0) == Ready(Gathered(rx, r, n))
    {
      StopsAt(rx, r, 0, n);
    }
  }

  /** The bytes the master reads from a buffer that had just crossed the threshold. */
  function Received(b: seq<bv8>): seq<bv8>
  {
    Response.Fill(b[..Take(b)])
  }

  /** Decoding whatever the poll finds is within the master's data limit. */
  predicate Answerable(rx: seq<bv8>, r: Reply)
  {
    var p := Search(rx, r, 0);
    p.Ready? ==> Response.Decodable(Received(p.buffer), Take(p.buffer))
  }

  /** A reply the master can decode: the slave never promises more register data than fits. */
  type Answer = r: Reply | Answerable([], r) witness Reply([[0, 0, 0, 0, 0, 0]])

  /** Nothing arrives during any wait from `i` on. */
  lemma {:induction false} SilenceIsQuiet(i: nat)
    requires i <= Polls
    ensures Search([], Reply([]), i) == Quiet([])
    decreases Polls - i
  {
    if i < Polls {
      assert [] + Arrival(Reply([]), i) == [];
      SilenceIsQuiet(i + 1);
    }
  }

  /** A slave that never answers. */
  const Silence: Answer := (SilenceIsQuiet(0); Reply([]))

  /** What one call of the read routine returns, and what it leaves buffered. */
  datatype Heard = Heard(value: int, rest: seq<bv8>)

  function Listen(rx: seq<bv8>, r: Reply): Heard
    requires Answerable(rx, r)
  {
    match Search(rx, r, 0)
    case Quiet(b) => Heard(Response.NoValue, b)
    case Ready(b) => Heard(Response.Decode(Received(b), Take(b)), b[Take(b)..])
  }

  /** The wait that brings the buffer past the threshold is where polling stops. */
  lemma PollFound(rx0: seq<bv8>, r: Reply, rx: seq<bv8>, i: nat)
    requires i < Polls && Answerable(rx0, r) && Search(rx0, r, 0) == Search(rx, r, i)
    requires |rx + Arrival(r, i)| > Threshold
    ensures var b := rx + Arrival(r, i);
      Response.Decodable(Received(b), Take(b))
      && Listen(rx0, r) == Heard(Response.Decode(Received(b), Take(b)), b[Take(b)..])
  {
  }

  /** A wait that leaves the buffer at or below the threshold moves polling on. */
  lemma PollPassed(rx0: seq<bv8>, r: Reply, rx: seq<bv8>, i: nat)
    requires i < Polls && Search(rx0, r, 0) == Search(rx, r, i)
    requires |rx + Arrival(r, i)| <= Threshold
    ensures Search(rx0, r, 0) == Search(rx + Arrival(r, i), r, i + 1)
  {
  }

  /**
   * Reads up to a receive buffer's worth of `buffered` into a zeroed buffer
   * and decodes it; also returns what stays buffered.
   */
  method Drain(buffered: seq<bv8>) returns (value: int, rest: seq<bv8>)
    requires 2 <= |buffered| && Response.Decodable(Received(buffered), Take(buffered))
    ensures value == Response.Decode(Received(buffered), Take(buffered)) && rest == buffered[Take(buffered)..]
  {
    var lgt := Take(buffered);
    var bff := new bv8[Response.BufferSize](k requires 0 <= k < Response.BufferSize => if k < lgt then buffered[k] else 0);
    assert bff[..] == Received(buffered);
    rest := buffered[lgt..];
    value := Response.DecodeBuffer(bff, lgt);
  }

  // ---------------------------------------------------------------------------
  // A transaction with retries
  // ---------------------------------------------------------------------------

  /** Attempts per transaction. */
  const Tries: nat := 3

  /** The result of reading from a slave that sends nothing. */
  const Nothing: Heard := Heard(Response.NoValue, [])

  lemma SilenceHeard()
    ensures Listen([], Silence) == Nothing
  {
    SilenceIsQuiet(0);
  }

  /** What the master's reads return, one per reply, in order. */
  function Hearings(replies: seq<Answer>): (heard: seq<Heard>)
    ensures |heard| == |replies|
    ensures forall j :: 0 <= j < |replies| ==> heard[j] == Listen([], replies[j])
  {
    seq(|replies|, j requires 0 <= j < |replies| => Listen([], replies[j]))
  }

  /** The `j`-th read result; once the slave has nothing more to say, silence. */
  function At(heard: seq<Heard>, j: nat): Heard
  {
    if j < |heard| then heard[j] else Nothing
  }

  function Later<T>(s: seq<T>): seq<T>
  {
    if s == [] then [] else s[1..]
  }

  function Drop<T>(s: seq<T>, j: nat): seq<T>
  {
    if j <= |s| then s[j..] else []
  }

  /** The master's `j`-th read among `replies` returns what `Hearings` says. */
  lemma HearingsAt(replies: seq<Answer>, j: nat)
    ensures At(Hearings(replies), j) == Listen([], if j < |replies| then replies[j] else Silence)
  {
    SilenceHeard();
  }

  /** The result of a transaction, everything the driver did, how many attempts it made and the buffer left over. */
  datatype Outcome = Outcome(value: int, events: seq<Event>, count: nat, rx: seq<bv8>)

  /**
   * Up to `attempts` attempts with the same frame, where the reads return
   * `heard` in turn: each attempt writes the frame (flushing the receive
   * buffer) and reads; a CRC error leads to the next attempt and is reported
   * as NoValue once none is left; any other result ends the transaction with
   * the master taking the line back.
   */
  function Exchange(frame: seq<bv8>, heard: seq<Heard>, attempts: nat, delay: int, rx: seq<bv8>): Outcome
    decreases attempts
  {
    if attempts == 0 then Outcome(Response.NoValue, [], 0, rx)
    else
      var h := At(heard, 0);
      var events := Attempt(frame, delay, h.value);
      if h.value == Response.CrcError then
        var o := Exchange(frame, Later(heard), attempts - 1, delay, h.rest);
        Outcome(o.value, events + o.events, o.count + 1, o.rx)
      else
        Outcome(h.value, events + Reclaim, 1, h.rest)
  }

  /** One step of a transaction with attempts left. */
  lemma ExchangeStep(frame: seq<bv8>, heard: seq<Heard>, attempts: nat, delay: int, rx: seq<bv8>)
    requires attempts > 0
    ensures var h, o := At(heard, 0), Exchange(frame, heard, attempts, delay, rx);
      if h.value == Response.CrcError then
        var q := Exchange(frame, Later(heard), attempts - 1, delay, h.rest);
        o == Outcome(q.value, Attempt(frame, delay, h.value) + q.events, q.count + 1, q.rx)
      else o == Outcome(h.value, Attempt(frame, delay, h.value) + Reclaim, 1, h.rest)
  {
  }

  /**
   * After `i` failed attempts, leaving `rx` and `trace`, the rest of the
   * transaction accounts for the whole one that started from `rx0` and `trace0`.
   */
  ghost predicate Progress(frame: seq<bv8>, heard: seq<Heard>, tries: nat, delay: int, rx0: seq<bv8>, trace0: seq<Event>,
                           i: nat, rx: seq<bv8>, trace: seq<Event>)
  {
    i <= tries &&
    var o, q := Exchange(frame, heard, tries, delay, rx0), Exchange(frame, Drop(heard, i), tries - i, delay, rx);
    o.value == q.value && o.rx == q.rx && o.count == q.count + i && trace0 + o.events == trace + q.events
  }

  lemma ProgressStart(frame: seq<bv8>, heard: seq<Heard>, tries: nat, delay: int, rx0: seq<bv8>, trace0: seq<Event>)
    ensures Progress(frame, heard, tries, delay, rx0, trace0, 0, rx0, trace0)
  {
    assert Drop(heard, 0) == heard;
  }

  /** An attempt that read a CRC error moves on to the next reply. */
  lemma ProgressRetry(frame: seq<bv8>, heard: seq<Heard>, tries: nat, delay: int, rx0: seq<bv8>, trace0: seq<Event>,
                      i: nat, left: seq<bv8>, before: seq<Event>, rx: seq<bv8>, trace: seq<Event>)
    requires Progress(frame, heard, tries, delay, rx0, trace0, i, left, before) && i < tries
    requires At(Drop(heard, i), 0).value == Response.CrcError && rx == At(Drop(heard, i), 0).rest
    requires trace == before + Attempt(frame, delay, Response.CrcError)
    ensures Progress(frame, heard, tries, delay, rx0, trace0, i + 1, rx, trace)
  {
    ExchangeStep(frame, Drop(heard, i), tries - i, delay, left);
    DropLater(heard, i);
    var q := Exchange(frame, Drop(heard, i + 1), tries - (i + 1), delay, rx);
    Regroup(before, Attempt(frame, delay, Response.CrcError), q.events);
  }

  /** An attempt that read anything else ends the transaction. */
  lemma ProgressDone(frame: seq<bv8>, heard: seq<Heard>, tries: nat, delay: int, rx0: seq<bv8>, trace0: seq<Event>,
                     i: nat, left: seq<bv8>, before: seq<Event>, value: int, rx: seq<bv8>, trace: seq<Event>)
    requires Progress(frame, heard, tries, delay, rx0, trace0, i, left, before) && i < tries
    requires value == At(Drop(heard, i), 0).value != Response.CrcError && rx == At(Drop(heard, i), 0).rest
    requires trace == before + Attempt(frame, delay, value) + Reclaim
    ensures var o := Exchange(frame, heard, tries, delay, rx0);
      value == o.value && trace == trace0 + o.events && rx == o.rx && o.count == i + 1
  {
    ExchangeStep(frame, Drop(heard, i), tries - i, delay, left);
    assert before + Attempt(frame, delay, value) + Reclaim == before + (Attempt(frame, delay, value) + Reclaim);
  }

  /** Every attempt read a CRC error. */
  lemma ProgressExhausted(frame: seq<bv8>, heard: seq<Heard>, tries: nat, delay: int, rx0: seq<bv8>, trace0: seq<Event>,
                          rx: seq<bv8>, trace: seq<Event>)
    requires Progress(frame, heard, tries, delay, rx0, trace0, tries, rx, trace)
    ensures var o := Exchange(frame, heard, tries, delay, rx0);
      o.value == Response.NoValue && trace == trace0 + o.events && rx == o.rx && o.count == tries
  {
    assert trace + [] == trace;
  }

  lemma Regroup<T>(a: seq<T>, b: seq<T>, c: seq<T>)
    ensures a + (b + c) == a + b + c
  {
  }

  lemma DropLater<T>(s: seq<T>, i: nat)
    ensures Later(Drop(s, i)) == Drop(s, i + 1)
  {
  }

  /** `frame`, `k` times over. */
  function Repeat(frame: seq<bv8>, k: nat): seq<bv8>
    decreases k
  {
    if k == 0 then [] else frame + Repeat(frame, k - 1)
  }

  lemma LaterShifts(heard: seq<Heard>, j: nat)
    ensures At(Later(heard), j) == At(heard, j + 1)
    ensures Drop(Later(heard), j) == Drop(heard, j + 1)
  {
  }

  /**
   * Whatever the slave does, a transaction never reports a CRC error, keeps
   * the half-duplex discipline, reads between once and `attempts` times and
   * sends the same frame once per read.
   */
  lemma {:induction false} ExchangeDiscipline(frame: seq<bv8>, heard: seq<Heard>, attempts: nat, delay: int, rx: seq<bv8>, p: Pins)
    ensures var o := Exchange(frame, heard, attempts, delay, rx);
      o.value != Response.CrcError && HalfDuplex(o.events, p)
      && Reads(o.events) == o.count && o.count <= attempts && (attempts > 0 ==> o.count >= 1)
      && TxBytes(o.events) == Repeat(frame, o.count)
    decreases attempts
  {
    if attempts > 0 {
      var h := At(heard, 0);
      var a := Attempt(frame, delay, h.value);
      AttemptFacts(frame, delay, h.value, p);
      if h.value == Response.CrcError {
        var o := Exchange(frame, Later(heard), attempts - 1, delay, h.rest);
        ExchangeDiscipline(frame, Later(heard), attempts - 1, delay, h.rest, Receiving);
        EventsAppend(a, o.events, p);
      } else {
        ReclaimFacts(Receiving);
        EventsAppend(a, Reclaim, p);
      }
    }
  }

  /**
   * Every transaction moves the direction pins in lockstep: each `De(l)` is
   * directly followed by `Re(l)`, so starting from equal levels the two pins
   * end at equal levels.
   */
  lemma {:induction false} ExchangeLockstep(frame: seq<bv8>, heard: seq<Heard>, attempts: nat, delay: int, rx: seq<bv8>, p: Pins)
    ensures var o := Exchange(frame, heard, attempts, delay, rx);
      Lockstep(o.events) && (p.de == p.re ==> Final(o.events, p).de == Final(o.events, p).re)
    decreases attempts
  {
    var o := Exchange(frame, heard, attempts, delay, rx);
    if attempts > 0 {
      var h := At(heard, 0);
      var a := Attempt(frame, delay, h.value);
      AttemptFacts(frame, delay, h.value, p);
      if h.value == Response.CrcError {
        var q := Exchange(frame, Later(heard), attempts - 1, delay, h.rest);
        ExchangeLockstep(frame, Later(heard), attempts - 1, delay, h.rest, p);
        LockstepAppend(a, q.events);
      } else {
        ReclaimFacts(Receiving);
        LockstepAppend(a, Reclaim);
      }
    }
    if p.de == p.re {
      LockstepLevels(o.events, p);
    }
  }

  /**
   * When the first `k` reads hit CRC errors and read `k` does not, with `k`
   * below the attempt budget, the transaction returns what read `k` returned,
   * after exactly `k + 1` attempts, with the master holding the line.
   */
  lemma {:induction false} ExchangeAnswered(frame: seq<bv8>, heard: seq<Heard>, attempts: nat, delay: int, rx: seq<bv8>, k: nat, p: Pins)
    requires k < attempts
    requires forall j :: 0 <= j < k ==> At(heard, j).value == Response.CrcError
    requires At(heard, k).value != Response.CrcError
    ensures var o := Exchange(frame, heard, attempts, delay, rx);
      o.value == At(heard, k).value && o.count == k + 1 && o.rx == At(heard, k).rest
      && Final(o.events, p) == Transmitting
    decreases k
  {
    var h := At(heard, 0);
    var a := Attempt(frame, delay, h.value);
    AttemptFacts(frame, delay, h.value, p);
    if k == 0 {
      ReclaimFacts(Receiving);
      EventsAppend(a, Reclaim, p);
    } else {
      forall j | 0 <= j < k - 1
        ensures At(Later(heard), j).value == Response.CrcError
      {
        LaterShifts(heard, j);
      }
      LaterShifts(heard, k - 1);
      var o := Exchange(frame, Later(heard), attempts - 1, delay, h.rest);
      ExchangeAnswered(frame, Later(heard), attempts - 1, delay, h.rest, k - 1, Receiving);
      EventsAppend(a, o.events, p);
    }
  }

  /**
   * When every read within the budget hits a CRC error, the transaction
   * returns NoValue after using every attempt, with the line left to the slave.
   */
  lemma {:induction false} ExchangeExhausted(frame: seq<bv8>, heard: seq<Heard>, attempts: nat, delay: int, rx: seq<bv8>, p: Pins)
    requires attempts > 0
    requires forall j :: 0 <= j < attempts ==> At(heard, j).value == Response.CrcError
    ensures var o := Exchange(frame, heard, attempts, delay, rx);
      o.value == Response.NoValue && o.count == attempts && o.rx == At(heard, attempts - 1).rest
      && Final(o.events, p) == Receiving
    decreases attempts
  {
    var h := At(heard, 0);
    var a := Attempt(frame, delay, h.value);
    AttemptFacts(frame, delay, h.value, p);
    var o := Exchange(frame, Later(heard), attempts - 1, delay, h.rest);
    if attempts > 1 {
      forall j | 0 <= j < attempts - 1
        ensures At(Later(heard), j).value == Response.CrcError
      {
        LaterShifts(heard, j);
      }
      LaterShifts(heard, attempts - 2);
      ExchangeExhausted(frame, Later(heard), attempts - 1, delay, h.rest, Receiving);
    }
    EventsAppend(a, o.events, p);
  }

  // ---------------------------------------------------------------------------
  // What a correct, a silent and a noisy slave lead to
  // ---------------------------------------------------------------------------

  /** A reply arriving whole during the first wait is read whole and decoded. */
  lemma ListenOnce(b: seq<bv8>)
    requires Threshold < |b| <= Response.BufferSize
    ensures Search([], Reply([b]), 0) == Ready(b) && Take(b) == |b| && Received(b) == Response.Fill(b)
    ensures Answerable([], Reply([b])) <==> Response.Decodable(Response.Fill(b), |b|)
    ensures Answerable([], Reply([b])) ==> Listen([], Reply([b])) == Heard(Response.Decode(Response.Fill(b), |b|), [])
  {
    assert [] + Arrival(Reply([b]), 0) == b;
    assert b[..|b|] == b;
  }

  /** A slave answering a read correctly is heard: the master obtains the register's 16-bit value. */
  lemma CorrectReadReply(id: bv8, code: bv8, register: int)
    requires code == Frame.ReadHolding || code == Frame.ReadInput
    ensures Answerable([], Reply([Frame.ReadResponse(id, code, register)]))
    ensures Listen([], Reply([Frame.ReadResponse(id, code, register)])).value == register % 0x1_0000
  {
    var r := Frame.ReadResponse(id, code, register);
    Frame.SealedIff([], [id, code, 2, Frame.ValueHigh(register), Frame.ValueLow(register)]);
    ListenOnce(r);
    Response.DecodeReadResponse(id, code, register);
  }

  /** A slave acknowledging a write correctly is heard: the master obtains 1. */
  lemma CorrectWriteReply(id: bv8, address: bv16)
    ensures Answerable([], Reply([Frame.WriteResponse(id, address)]))
    ensures Listen([], Reply([Frame.WriteResponse(id, address)])).value == 1
  {
    var r := Frame.WriteResponse(id, address);
    Frame.SealedIff([], [id, Frame.WriteMultiple, Frame.High(address), Frame.Low(address), 0, 1]);
    ListenOnce(r);
    Response.DecodeWriteResponse(id, address);
  }

  /** A read request answered correctly the first time returns the register after one attempt, having sent the request once. */
  lemma RequestAnswered(id: bv8, code: bv8, address: bv16, register: int, replies: seq<Answer>, delay: int, rx: seq<bv8>)
    requires code == Frame.ReadHolding || code == Frame.ReadInput
    requires |replies| >= 1 && replies[0] == Reply([Frame.ReadResponse(id, code, register)])
    ensures var o := Exchange(Frame.ReadRequest(id, code, address), Hearings(replies), Tries, delay, rx);
      o.value == register % 0x1_0000 && o.count == 1 && TxBytes(o.events) == Frame.ReadRequest(id, code, address)
  {
    var frame := Frame.ReadRequest(id, code, address);
    CorrectReadReply(id, code, register);
    HearingsAt(replies, 0);
    ExchangeAnswered(frame, Hearings(replies), Tries, delay, rx, 0, PowerOn);
    ExchangeDiscipline(frame, Hearings(replies), Tries, delay, rx, PowerOn);
    assert Repeat(frame, 1) == frame + [];
  }

  /** A write request acknowledged the first time yields 1 after one attempt. */
  lemma WriteAcknowledged(id: bv8, address: bv16, value: int, replies: seq<Answer>, delay: int, rx: seq<bv8>)
    requires |replies| >= 1 && replies[0] == Reply([Frame.WriteResponse(id, address)])
    ensures var o := Exchange(Frame.WriteRequest(id, address, value), Hearings(replies), Tries, delay, rx);
      o.value == 1 && o.count == 1
  {
    CorrectWriteReply(id, address);
    HearingsAt(replies, 0);
    ExchangeAnswered(Frame.WriteRequest(id, address, value), Hearings(replies), Tries, delay, rx, 0, PowerOn);
  }

  /** No answer is not retried: one attempt, NoValue. */
  lemma SilentSlave(frame: seq<bv8>, replies: seq<Answer>, delay: int, rx: seq<bv8>)
    requires replies == [] || replies[0] == Silence
    ensures var o := Exchange(frame, Hearings(replies), Tries, delay, rx);
      o.value == Response.NoValue && o.count == 1
  {
    HearingsAt(replies, 0);
    SilenceHeard();
    ExchangeAnswered(frame, Hearings(replies), Tries, delay, rx, 0, PowerOn);
  }

  /** A sealed reply damaged in one byte in transit is heard as a CRC error. */
  lemma CorruptedReplyHeard(f: seq<bv8>, g: seq<bv8>, k: nat)
    requires Threshold < |f| <= Response.BufferSize && Frame.Sealed(f)
    requires |g| == |f| && k < |g| && g[k] != f[k]
    requires forall i :: 0 <= i < |g| && i != k ==> g[i] == f[i]
    ensures Answerable([], Reply([g])) && Listen([], Reply([g])).value == Response.CrcError
  {
    Response.CorruptedReplyIsCrcError(f, g, k);
    ListenOnce(g);
  }

  /** A reply damaged in one byte is retried, and a correct second reply is then returned after two attempts. */
  lemma RetryAfterCorruption(id: bv8, code: bv8, address: bv16, register: int, g: seq<bv8>, k: nat, replies: seq<Answer>, delay: int, rx: seq<bv8>)
    requires code == Frame.ReadHolding || code == Frame.ReadInput
    requires |g| == |Frame.ReadResponse(id, code, register)| && k < |g| && g[k] != Frame.ReadResponse(id, code, register)[k]
    requires forall i :: 0 <= i < |g| && i != k ==> g[i] == Frame.ReadResponse(id, code, register)[i]
    requires |replies| >= 2 && replies[0] == Reply([g]) && replies[1] == Reply([Frame.ReadResponse(id, code, register)])
    ensures var o := Exchange(Frame.ReadRequest(id, code, address), Hearings(replies), Tries, delay, rx);
      o.value == register % 0x1_0000 && o.count == 2
  {
    var f := Frame.ReadResponse(id, code, register);
    Frame.SealedIff([], [id, code, 2, Frame.ValueHigh(register), Frame.ValueLow(register)]);
    CorruptedReplyHeard(f, g, k);
    CorrectReadReply(id, code, register);
    SecondReplyUsed(Frame.ReadRequest(id, code, address), replies, delay, rx);
  }

  /** A CRC error on the first reply and none on the second: the second one's value, after two attempts. */
  lemma SecondReplyUsed(frame: seq<bv8>, replies: seq<Answer>, delay: int, rx: seq<bv8>)
    requires |replies| >= 2 && Listen([], replies[0]).value == Response.CrcError && Listen([], replies[1]).value != Response.CrcError
    ensures var o := Exchange(frame, Hearings(replies), Tries, delay, rx);
      o.value == Listen([], replies[1]).value && o.count == 2
  {
    HearingsAt(replies, 0);
    HearingsAt(replies, 1);
    ExchangeAnswered(frame, Hearings(replies), Tries, delay, rx, 1, PowerOn);
  }

  // ---------------------------------------------------------------------------
  // Guard time
  // ---------------------------------------------------------------------------

  function Abs(x: int): nat
  {
    if x < 0 then -x else x
  }

  /** Integer division as C performs it: the quotient truncated toward zero. */
  function CDiv(a: int, b: int): int
    requires b != 0
  {
    if (a < 0) == (b < 0) then Abs(a) / Abs(b) else -(Abs(a) / Abs(b))
  }

  /** Forty bit times (ten bits per character, four characters) in microseconds, times the baud rate. */
  const GuardBits: nat := 40_000_000

  /**
   * The guard delay as the driver computes it: `1 / baud` is an integer
   * division, so the forty bit times are lost for any baud rate above 1.
   */
  function DelayAsWritten(baud: int): int
    requires baud != 0
  {
    CDiv(1, baud) * GuardBits
  }

  /** The delay as written is zero for every baud rate the driver accepts, and for all others but 1 and -1. */
  lemma DelayAsWrittenVanishes(baud: int)
    requires baud != 0
    ensures DelayAsWritten(baud) == 0 <==> baud != 1 && baud != -1
    ensures DelayAsWritten(4800) == 0 && DelayAsWritten(115200) == 0
  {
  }

  /** The guard delay the driver evidently intends: forty bit times, rounded up to whole microseconds. */
  function GuardDelay(baud: int): (us: nat)
    requires baud > 0
  {
    (GuardBits + baud - 1) / baud
  }

  /** The intended delay is the least whole number of microseconds covering forty bit times. */
  lemma GuardDelayIsCeiling(baud: int)
    requires baud > 0
    ensures GuardDelay(baud) * baud >= GuardBits
    ensures (GuardDelay(baud) - 1) * baud < GuardBits
  {
    var n := GuardBits + baud - 1;
    var q, r := n / baud, n % baud;
    assert n == q * baud + r && 0 <= r < baud;
    assert (q - 1) * baud == q * baud - baud;
  }

  lemma GuardDelayExamples()
    ensures GuardDelay(4800) == 8334 && GuardDelay(115200) == 348
  {
  }

  // ---------------------------------------------------------------------------
  // The driver
  // ---------------------------------------------------------------------------

  /** The answer the slave gives to the master's next read; silence once there are no more. */
  function Next(replies: seq<Answer>): Answer
  {
    if replies == [] then Silence else replies[0]
  }

  /** The next read's result is the first of the hearings. */
  lemma NextHeard(replies: seq<Answer>, i: nat)
    ensures At(Drop(Hearings(replies), i), 0) == Listen([], Next(Drop(replies, i)))
    ensures Later(Drop(Hearings(replies), i)) == Drop(Hearings(replies), i + 1)
    ensures Later(Drop(replies, i)) == Drop(replies, i + 1)
  {
    SilenceHeard();
  }

  /** Baud rates below this are refused. */
  const MinBaud: int := 4800

  /** Receive buffers smaller than this are refused. */
  const MinBuffer: int := 129

  /** The driver object: its configuration, its UART's receive buffer, and the line it has driven. */
  class Modbus {
    var uart: int
    var pinDe: int
    var pinRe: int
    var baud: int

    /** Bytes received by the UART and not read yet. */
    var rx: seq<bv8>

    /** How the slave will answer the master's coming reads. */
    var bus: seq<Answer>

    /** Everything the driver did to the line so far. */
    var trace: seq<Event>

    function Config(): (int, int, int, int)
      reads this
    {
      (uart, pinDe, pinRe, baud)
    }

    /** Current levels of the two direction pins. */
    function Lines(): Pins
      reads this
    {
      Final(trace, PowerOn)
    }

    /** A driver not configured yet, facing a slave that will answer with `bus`. */
    constructor(bus: seq<Answer>)
      ensures this.bus == bus && rx == [] && trace == [] && Config() == (0, 0, 0, 0)
    {
      uart, pinDe, pinRe, baud := 0, 0, 0, 0;
      rx := [];
      this.bus := bus;
      trace := [];
    }

    /** Appends one event to the trace, updating the pins it drives. */
    method Log(e: Event)
      modifies this
      ensures trace == old(trace) + [e] && Lines() == After(e, old(Lines()))
      ensures rx == old(rx) && bus == old(bus) && Config() == old(Config())
    {
      trace := trace + [e];
      EventsAppend(old(trace), [e], PowerOn);
      assert [e][1..] == [];
    }

    /** Sets the Driver Enable pin. */
    method SetDe(level: nat)
      modifies this
      ensures trace == old(trace) + [De(level)] && Lines() == old(Lines()).(de := level)
      ensures rx == old(rx) && bus == old(bus) && Config() == old(Config())
    {
      Log(De(level));
    }

    /** Sets the Receiver Enable pin. */
    method SetRe(level: nat)
      modifies this
      ensures trace == old(trace) + [Re(level)] && Lines() == old(Lines()).(re := level)
      ensures rx == old(rx) && bus == old(bus) && Config() == old(Config())
    {
      Log(Re(level));
    }

    /** Busy-waits `us` microseconds. */
    method Pause(us: int)
      modifies this
      ensures trace == old(trace) + [Wait(us)]
      ensures rx == old(rx) && bus == old(bus) && Config() == old(Config())
    {
      Log(Wait(us));
    }

    /** Discards everything in the receive buffer. */
    method Flush()
      modifies this
      ensures rx == [] && trace == old(trace) + [Flushed] && Lines() == old(Lines())
      ensures bus == old(bus) && Config() == old(Config())
    {
      Log(Flushed);
      rx := [];
    }

    /**
     * Configures the driver; a baud rate below 4800 or a receive buffer of
     * fewer than 129 bytes is refused and changes nothing. Otherwise the driver is
     * disabled, the receiver is disabled and the receive buffer is flushed.
     */
    method Init(uart: int, baud: int, buffer: int, pinDe: int, pinRe: int, pinTx: int, pinRx: int)
      modifies this
      ensures baud < MinBaud || buffer < MinBuffer ==>
        Config() == old(Config()) && rx == old(rx) && bus == old(bus) && trace == old(trace)
      ensures baud >= MinBaud && buffer >= MinBuffer ==>
        Config() == (uart, pinDe, pinRe, baud) && rx == [] && bus == old(bus)
        && trace == old(trace) + [De(0), Re(1), Flushed] && Lines() == Pins(0, 1)
    {
      if baud < MinBaud {
        return;
      }
      if buffer < MinBuffer {
        return;
      }
      this.pinDe := pinDe;
      this.pinRe := pinRe;
      this.baud := baud;
      this.uart := uart;
      SetDe(0);
      SetRe(1);
      Flush();
    }

    /** Sends the first `size` bytes of `pck`, one at a time, after flushing the receive buffer. */
    method Write(pck: array<bv8>, size: nat)
      requires size <= pck.Length
      modifies this
      ensures rx == [] && trace == old(trace) + [Flushed] + Bytes(pck[..size])
      ensures bus == old(bus) && Config() == old(Config())
    {
      Flush();
      var i := 0;
      while i < size
        invariant 0 <= i <= size
        invariant rx == [] && trace == old(trace) + [Flushed] + Bytes(pck[..i])
        invariant bus == old(bus) && Config() == old(Config())
      {
        assert Bytes(pck[..i + 1]) == Bytes(pck[..i]) + [Tx(pck[i])];
        trace := trace + [Tx(pck[i])];
        i := i + 1;
      }
    }

    /**
     * Waits for an answer: up to ten times, let 10 ms pass and, once more than
     * five bytes are buffered, read up to sixteen of them and decode them.
     * No answer yields NoValue.
     */
    method Read() returns (value: int)
      requires Answerable(rx, Next(bus))
      modifies this
      ensures var h := Listen(old(rx), Next(old(bus)));
        value == h.value && rx == h.rest && bus == Later(old(bus)) && trace == old(trace) + [Rx(value)]
      ensures Config() == old(Config())
    {
      var reply := Next(bus);
      bus := Later(bus);
      var i := 0;
      while i < Polls
        invariant 0 <= i <= Polls
        invariant Search(old(rx), reply, 0) == Search(rx, reply, i)
        invariant bus == Later(old(bus)) && trace == old(trace) && Config() == old(Config())
      {
        ghost var prev := rx;
        rx := rx + Arrival(reply, i);
        if |rx| > Threshold {
          PollFound(old(rx), reply, prev, i);
          value, rx := Drain(rx);
          trace := trace + [Rx(value)];
          return;
        }
        PollPassed(old(rx), reply, prev, i);
        i := i + 1;
      }
      value := Response.NoValue;
      trace := trace + [Rx(value)];
    }

    /**
     * One attempt: take the line, guard time, send the frame, guard time,
     * release the line, read the reply.
     */
    method Try(pck: array<bv8>, size: nat, delay: int) returns (value: int)
      requires size <= pck.Length
      modifies this
      ensures var h := Listen([], Next(old(bus)));
        value == h.value && rx == h.rest && bus == Later(old(bus))
      ensures trace == old(trace) + Attempt(pck[..size], delay, value)
      ensures Config() == old(Config())
    {
      SetDe(1);
      SetRe(1);
      Pause(delay);
      Write(pck, size);
      Pause(delay);
      SetDe(0);
      SetRe(0);
      value := Read();
      AttemptLogged(old(trace), pck[..size], delay, value);
      assert old(trace) + [De(1)] + [Re(1)] + [Wait(delay)] + [Flushed] + Bytes(pck[..size])
        == old(trace) + [De(1)] + [Re(1)] + [Wait(delay)] + ([Flushed] + Bytes(pck[..size]));
    }

    /**
     * Up to three attempts with the frame in the first `size` bytes of `pck`
     * and guard waits of `delay` microseconds, as both request and set perform
     * them: retry on a CRC error, otherwise take the line back and stop.
     */
    method Transact(pck: array<bv8>, size: nat, delay: int) returns (value: int)
      requires size <= pck.Length
      modifies this
      ensures var o := Exchange(pck[..size], Hearings(old(bus)), Tries, delay, old(rx));
        value == o.value && trace == old(trace) + o.events && rx == o.rx && bus == Drop(old(bus), o.count)
      ensures Config() == old(Config())
    {
      ghost var frame := pck[..size];
      ghost var heard := Hearings(bus);
      ghost var tries: nat := Tries;
      ProgressStart(frame, heard, tries, delay, rx, trace);
      value := Response.NoValue;
      var i := 0;
      while i < Tries
        invariant 0 <= i <= tries == Tries
        invariant Config() == old(Config()) && pck[..size] == frame
        invariant bus == Drop(old(bus), i) && value == Response.NoValue
        invariant Progress(frame, heard, tries, delay, old(rx), old(trace), i, rx, trace)
      {
        ghost var before, left := trace, rx;
        NextHeard(old(bus), i);
        value := Try(pck, size, delay);
        if value == Response.CrcError {
          ProgressRetry(frame, heard, tries, delay, old(rx), old(trace), i, left, before, rx, trace);
          value := Response.NoValue;
          i := i + 1;
          continue;
        }
        SetDe(1);
        SetRe(1);
        ProgressDone(frame, heard, tries, delay, old(rx), old(trace), i, left, before, value, rx, trace);
        return;
      }
      ProgressExhausted(frame, heard, tries, delay, old(rx), old(trace), rx, trace);
    }

    /**
     * Reads one register of slave `id` with function 3 or 4. Any other
     * function is refused with -1, touching nothing.
     */
    method Request(id: bv8, code: bv8, address: bv16) returns (value: int)
      requires code == Frame.ReadHolding || code == Frame.ReadInput ==> baud != 0
      modifies this
      ensures code != Frame.ReadHolding && code != Frame.ReadInput ==>
        value == -1 && trace == old(trace) && rx == old(rx) && bus == old(bus) && Config() == old(Config())
      ensures code == Frame.ReadHolding || code == Frame.ReadInput ==>
        var o := Exchange(Frame.ReadRequest(id, code, address), Hearings(old(bus)), Tries, DelayAsWritten(old(baud)), old(rx));
        value == o.value && trace == old(trace) + o.events && rx == o.rx && bus == Drop(old(bus), o.count)
        && Config() == old(Config())
    {
      if code != Frame.ReadHolding && code != Frame.ReadInput {
        return -1;
      }
      var dly := DelayAsWritten(baud);
      var pck := Frame.BuildReadRequest(id, code, address);
      value := Transact(pck, 8, dly);
      assert pck[..8] == pck[..];
    }

    /**
     * Writes `value` to one register of slave `id` (function 16); 1 when the
     * transaction's result is 1, 0 otherwise.
     */
    method Set(id: bv8, address: bv16, value: int) returns (ok: int)
      requires baud != 0
      modifies this
      ensures var o := Exchange(Frame.WriteRequest(id, address, value), Hearings(old(bus)), Tries, DelayAsWritten(old(baud)), old(rx));
        (ok == 1 <==> o.value == 1) && (ok == 0 <==> o.value != 1)
        && trace == old(trace) + o.events && rx == o.rx && bus == Drop(old(bus), o.count)
        && Config() == old(Config())
    {
      var dly := DelayAsWritten(baud);
      var pck := Frame.BuildWriteRequest(id, address, Frame.ValueHigh(value), Frame.ValueLow(value));
      var rcv := Transact(pck, 11, dly);
      assert pck[..11] == pck[..];
      if rcv == 1 {
        return 1;
      }
      return 0;
    }
  }
}
