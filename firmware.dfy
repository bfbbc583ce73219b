/** The firmware's LED path: the `neopixel` routine that turns a list of
    colours into a pulse signal and hands it to the remote-control transmit
    driver, and the `POST /led` handler that feeds it one colour at a time.

    The driver and the pulse library are not part of this model. What they
    decide is an input here: the driver's counter clock and whether it
    transmits are fields of `TxDriver`; the nanosecond-to-tick conversion of
    `Pulse::new_with_duration` is the function `ticksFor`; whether the k-th
    `push` onto the signal succeeds is `pushOk(k)`. */
module Firmware {
  import opened Results
  import opened Ws2812

  datatype Error =
    | ClockUnavailable         // the driver could not report its counter clock
    | DurationUnrepresentable  // a pulse duration has no tick count at that clock
    | PushRejected             // the signal refused a pulse pair
    | TransmitFailed           // the driver failed to send the signal
    | ReadFailed               // reading the request body from the connection failed
    | ShortBody                // the request body had fewer than three bytes

  /** The transmit driver for the LED's data pin. Sending a signal blocks
      until it has been driven out; `sent` records every signal driven out,
      oldest first. */
  class TxDriver {
    /** The tick rate of the driver's counter clock, if it can be read. */
    const clock: Option<nat>
    /** Whether the peripheral rejects transmissions. */
    const faulted: bool
    var sent: seq<seq<Pulse>>

    constructor (clock: Option<nat>, faulted: bool)
      ensures this.clock == clock && this.faulted == faulted && sent == []
    {
      this.clock := clock;
      this.faulted := faulted;
      sent := [];
    }

    /** Drives `signal` out on the pin and returns once it has been sent. */
    method StartBlocking(signal: seq<Pulse>) returns (res: Result<(), Error>)
      modifies this
      ensures res.Ok? <==> !faulted
      ensures res.Err? ==> res.error == TransmitFailed
      ensures sent == if faulted then old(sent) else old(sent) + [signal]
    {
      if faulted {
        res := Err(TransmitFailed);
      } else {
        sent := sent + [signal];
        res := Ok(());
      }
    }
  }

  /** A pulse of the given level lasting `nanos` nanoseconds at a counter
      clock of `hz` ticks per second. */
  function NewWithDuration(hz: nat, level: PinState, nanos: nat, ticksFor: (nat, nat) -> Option<nat>): (r: Result<Pulse, Error>)
    ensures r.Ok? <==> ticksFor(hz, nanos).Some?
    ensures r.Ok? ==> r.value.level == level && r.value.ticks == ticksFor(hz, nanos).value
    ensures r.Err? ==> r.error == DurationUnrepresentable
  {
    match ticksFor(hz, nanos)
    case None => Err(DurationUnrepresentable)
    case Some(ticks) => Ok(Pulse(level, ticks))
  }

  /** The four bit-symbol pulses at clock `hz`, built in the order t0h, t0l,
      t1h, t1l from the protocol's durations. */
  function Timings(hz: nat, ticksFor: (nat, nat) -> Option<nat>): (r: Result<Timing, Error>)
    ensures r.Ok? <==>
      ticksFor(hz, T0H_NS).Some? && ticksFor(hz, T0L_NS).Some? &&
      ticksFor(hz, T1H_NS).Some? && ticksFor(hz, T1L_NS).Some?
    ensures r.Ok? ==> WellLeveled(r.value)
    ensures r.Ok? ==>
      r.value.t0h.ticks == ticksFor(hz, T0H_NS).value && r.value.t0l.ticks == ticksFor(hz, T0L_NS).value &&
      r.value.t1h.ticks == ticksFor(hz, T1H_NS).value && r.value.t1l.ticks == ticksFor(hz, T1L_NS).value
    ensures r.Err? ==> r.error == DurationUnrepresentable
  {
    var t0h :- NewWithDuration(hz, High, T0H_NS, ticksFor);
    var t0l :- NewWithDuration(hz, Low, T0L_NS, ticksFor);
    var t1h :- NewWithDuration(hz, High, T1H_NS, ticksFor);
    var t1l :- NewWithDuration(hz, Low, T1L_NS, ticksFor);
    Ok(Timing(t0h, t0l, t1h, t1l))
  }

  /** The first `n` pushes onto the signal all succeed. */
  predicate PushesOk(pushOk: nat -> bool, n: nat) {
    forall k :: 0 <= k < n ==> pushOk(k)
  }

  /** The signal `neopixel` hands to the driver, or the error it stops with
      before transmitting. */
  function SignalFor(clock: Option<nat>, ticksFor: (nat, nat) -> Option<nat>, pushOk: nat -> bool, rgbList: seq<RGB>): (r: Result<seq<Pulse>, Error>)
    ensures r.Ok? <==> clock.Some? && Timings(clock.value, ticksFor).Ok? && PushesOk(pushOk, 24 * |rgbList|)
    ensures r.Ok? ==> r.value == Train(rgbList, Timings(clock.value, ticksFor).value) && |r.value| == 48 * |rgbList|
    ensures r.Err? ==> r.error == (if clock.None? then ClockUnavailable
                                   else if Timings(clock.value, ticksFor).Err? then DurationUnrepresentable
                                   else PushRejected)
  {
    match clock
    case None => Err(ClockUnavailable)
    case Some(hz) =>
      var t :- Timings(hz, ticksFor);
      if PushesOk(pushOk, 24 * |rgbList|) then Ok(Train(rgbList, t)) else Err(PushRejected)
  }

  /** Whatever signal `neopixel` would send carries 48 pulses per colour,
      alternates high and low starting high, and decodes back to the colour
      list whenever the clock gives the 350 ns and 700 ns high pulses
      different tick counts. */
  lemma SignalDecodes(hz: nat, ticksFor: (nat, nat) -> Option<nat>, pushOk: nat -> bool, rgbList: seq<RGB>)
    requires SignalFor(Some(hz), ticksFor, pushOk, rgbList).Ok?
    requires ticksFor(hz, T0H_NS) != ticksFor(hz, T1H_NS)
    ensures Timings(hz, ticksFor).Ok?
    ensures var s := SignalFor(Some(hz), ticksFor, pushOk, rgbList).value;
      && |s| == 48 * |rgbList|
      && (forall m :: 0 <= m < |s| ==> s[m].level == if m % 2 == 0 then High else Low)
      && Decode(s, Timings(hz, ticksFor).value) == Some(rgbList)
  {
    var t := Timings(hz, ticksFor).value;
    var s := SignalFor(Some(hz), ticksFor, pushOk, rgbList).value;
    assert s == Train(rgbList, t);
    forall m | 0 <= m < |s|
      ensures s[m].level == if m % 2 == 0 then High else Low
    {
      TrainLevels(rgbList, t, m);
    }
    DecodeTrain(rgbList, t);
  }

  /** Builds the signal for `rgbList`: for each colour in order, its packed
      word's bits 23 down to 0, each pushed as a high/low pulse pair. Stops
      at the first push the signal rejects. */
  method EncodeSignal(rgbList: seq<RGB>, t: Timing, pushOk: nat -> bool) returns (res: Result<seq<Pulse>, Error>)
    ensures res.Ok? <==> PushesOk(pushOk, 24 * |rgbList|)
    ensures res.Ok? ==> res.value == Train(rgbList, t)
    ensures res.Err? ==> res.error == PushRejected
  {
    var signal: seq<Pulse> := [];
    for j := 0 to |rgbList|
      invariant signal == Train(rgbList[..j], t)
      invariant PushesOk(pushOk, 24 * j)
    {
      var rgb := rgbList[j];
      var color := Pack(rgb);
      for i := 24 downto 0
        invariant signal == Train(rgbList[..j], t) + BitPulses(Bits(color, 24)[..24 - i], t)
        invariant PushesOk(pushOk, 24 * j + (24 - i))
      {
        var bit := MaskTest(color, i);
        var high, low := if bit then t.t1h else t.t0h, if bit then t.t1l else t.t0l;
        if !pushOk(24 * j + (23 - i)) {
          return Err(PushRejected);
        }
        BitPulsesStep(color, i, t);
        assert [high, low] == PairFor(Bit(color, i), t);
        signal := signal + [high, low];
      }
      assert Bits(color, 24)[..24] == Bits(color, 24);
      TrainStep(rgbList, j, t);
    }
    assert rgbList[..|rgbList|] == rgbList;
    res := Ok(signal);
  }

  /** `neopixel`: reads the driver's clock, builds the four timing pulses,
      encodes `rgbList` and transmits the signal. Any failure before the
      transmission returns its error and sends nothing. */
  method Neopixel(rgbList: seq<RGB>, tx: TxDriver, ticksFor: (nat, nat) -> Option<nat>, pushOk: nat -> bool)
    returns (res: Result<(), Error>)
    modifies tx
    ensures var s := SignalFor(tx.clock, ticksFor, pushOk, rgbList);
      && (res.Ok? <==> s.Ok? && !tx.faulted)
      && (s.Err? ==> res == Err(s.error) && tx.sent == old(tx.sent))
      && (s.Ok? && tx.faulted ==> res == Err(TransmitFailed) && tx.sent == old(tx.sent))
      && (res.Ok? ==> tx.sent == old(tx.sent) + [s.value])
  {
    if tx.clock.None? {
      return Err(ClockUnavailable);
    }
    var hz := tx.clock.value;
    var t0h :- NewWithDuration(hz, High, T0H_NS, ticksFor);
    var t0l :- NewWithDuration(hz, Low, T0L_NS, ticksFor);
    var t1h :- NewWithDuration(hz, High, T1H_NS, ticksFor);
    var t1l :- NewWithDuration(hz, Low, T1L_NS, ticksFor);
    var signal :- EncodeSignal(rgbList, Timing(t0h, t0l, t1h, t1l), pushOk);
    res := tx.StartBlocking(signal);
  }

  /** The `POST /led` handler: reads three bytes from the body as red, green
      and blue, shows that colour and answers with the same three bytes.
      `body` is what the connection delivers, `None` when reading it fails.
      A failed read or a body shorter than three bytes fails before the
      driver is touched; bytes after the third are not read. A failure of
      `neopixel` is passed on unchanged. */
  method HandleLed(body: Option<seq<Byte>>, tx: TxDriver, ticksFor: (nat, nat) -> Option<nat>, pushOk: nat -> bool)
    returns (res: Result<seq<Byte>, Error>)
    modifies tx
    ensures body.None? ==> res == Err(ReadFailed) && tx.sent == old(tx.sent)
    ensures body.Some? && |body.value| < 3 ==> res == Err(ShortBody) && tx.sent == old(tx.sent)
    ensures body.Some? && |body.value| >= 3 ==>
      var s := SignalFor(tx.clock, ticksFor, pushOk, [RGB(body.value[0], body.value[1], body.value[2])]);
      && (res.Ok? <==> s.Ok? && !tx.faulted)
      && (res.Ok? ==> res.value == body.value[..3] && tx.sent == old(tx.sent) + [s.value])
      && (res.Err? ==> res.error == (if s.Err? then s.error else TransmitFailed) && tx.sent == old(tx.sent))
  {
    if body.None? {
      return Err(ReadFailed);
    }
    if |body.value| < 3 {
      return Err(ShortBody);
    }
    var buf := body.value[..3];
    var rgb := RGB(buf[0], buf[1], buf[2]);
    var shown :- Neopixel([rgb], tx, ticksFor, pushOk);
    res := Ok(buf);
  }
}
