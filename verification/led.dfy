/** The toggle controller run by `led_task`: three output levels, each
    inverted by the event whose tag it is wired to. The channel is
    abstracted: the controller consumes a sequence of events in order. */
module Led {
  import opened Types

  /** Output pin levels of LED2, LED3 and LED4 (`true` is high). These
      are pin levels, not brightness: whether high means lit depends on
      the board's wiring. */
  datatype Leds = Leds(led2: bool, led3: bool, led4: bool)

  /** All three outputs are created high. */
  const Initial: Leds := Leds(true, true, true)

  /** Whether the output pin of the LED that event `e` controls is high. */
  function High(l: Leds, e: ButtonEvent): bool {
    match e
    case Button2Pressed => l.led2
    case Button3Pressed => l.led3
    case Button4Pressed => l.led4
  }

  /** Two states agree when every LED agrees. */
  lemma {:induction false} LedsExt(a: Leds, b: Leds)
    requires forall e :: High(a, e) == High(b, e)
    ensures a == b
  {
    assert High(a, Button2Pressed) == High(b, Button2Pressed);
    assert High(a, Button3Pressed) == High(b, Button3Pressed);
    assert High(a, Button4Pressed) == High(b, Button4Pressed);
  }

  /** One received event: read the matching LED and drive it to the
      opposite level. The other two LEDs keep their levels. */
  function Apply(l: Leds, e: ButtonEvent): (l': Leds)
    ensures High(l', e) == !High(l, e)
    ensures forall o :: o != e ==> High(l', o) == High(l, o)
  {
    match e
    case Button2Pressed => if l.led2 then l.(led2 := false) else l.(led2 := true)
    case Button3Pressed => if l.led3 then l.(led3 := false) else l.(led3 := true)
    case Button4Pressed => if l.led4 then l.(led4 := false) else l.(led4 := true)
  }

  /** The same event received twice restores the state. */
  lemma ApplyTwice(l: Leds, e: ButtonEvent)
    ensures Apply(Apply(l, e), e) == l
  {
  }

  /** State after consuming `events` in order. An LED whose tag never
      arrives keeps its level. */
  function ApplyAll(l: Leds, events: seq<ButtonEvent>): (l': Leds)
    ensures forall e :: e !in events ==> High(l', e) == High(l, e)
    decreases |events|
  {
    if |events| == 0 then l
    else ApplyAll(Apply(l, events[0]), events[1..])
  }

  /** Consuming one more event applies it to the state reached so far. */
  lemma {:induction false} ApplyAllSnoc(l: Leds, events: seq<ButtonEvent>, e: ButtonEvent)
    ensures ApplyAll(l, events + [e]) == Apply(ApplyAll(l, events), e)
    decreases |events|
  {
    if |events| == 0 {
      assert [e][1..] == [];
    } else {
      assert (events + [e])[0] == events[0];
      assert (events + [e])[1..] == events[1..] + [e];
      ApplyAllSnoc(Apply(l, events[0]), events[1..], e);
    }
  }

  /** Toggle parity: an LED ends at its starting level exactly when its
      tag arrived an even number of times. */
  lemma {:induction false} Parity(l: Leds, events: seq<ButtonEvent>, e: ButtonEvent)
    ensures High(ApplyAll(l, events), e) <==> (High(l, e) <==> multiset(events)[e] % 2 == 0)
    decreases |events|
  {
    if |events| > 0 {
      assert events == [events[0]] + events[1..];
      assert multiset(events) == multiset{events[0]} + multiset(events[1..]);
      Parity(Apply(l, events[0]), events[1..], e);
    }
  }

  /** From the power-on state, an LED is high exactly when its tag has
      arrived an even number of times. */
  lemma InitialParity(events: seq<ButtonEvent>, e: ButtonEvent)
    ensures High(ApplyAll(Initial, events), e) <==> multiset(events)[e] % 2 == 0
  {
    Parity(Initial, events, e);
  }

  /** The final state depends only on how often each tag arrived, not on
      the order in which producers got their events onto the channel. */
  lemma OrderIrrelevant(l: Leds, a: seq<ButtonEvent>, b: seq<ButtonEvent>)
    requires multiset(a) == multiset(b)
    ensures ApplyAll(l, a) == ApplyAll(l, b)
  {
    forall e | true
      ensures High(ApplyAll(l, a), e) == High(ApplyAll(l, b), e)
    {
      Parity(l, a, e);
      Parity(l, b, e);
    }
    LedsExt(ApplyAll(l, a), ApplyAll(l, b));
  }

  /** The controller's unbounded loop, run over a finite sequence of
      received events. */
  method Control(events: seq<ButtonEvent>) returns (leds: Leds)
    ensures leds == ApplyAll(Initial, events)
    ensures forall e :: High(leds, e) <==> multiset(events)[e] % 2 == 0
  {
    leds := Initial;
    var i := 0;
    while i < |events|
      invariant 0 <= i <= |events|
      invariant leds == ApplyAll(Initial, events[..i])
    {
      assert events[..i + 1] == events[..i] + [events[i]];
      ApplyAllSnoc(Initial, events[..i], events[i]);
      leds := Apply(leds, events[i]);
      i := i + 1;
    }
    assert events[..i] == events;
    forall e | true
      ensures High(leds, e) <==> multiset(events)[e] % 2 == 0
    {
      InitialParity(events, e);
    }
  }
}
