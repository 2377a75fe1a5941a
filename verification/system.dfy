/** The running configuration: three button tasks (tags Button2Pressed,
    Button3Pressed, Button4Pressed) sending into one channel that a single
    LED task drains. The channel's capacity, blocking and interleaving are
    not modelled; the controller is only assumed to consume, in some
    order, exactly the events the three button tasks sent. */
module System {
  import opened Types
  import Button
  import Led

  /** The sampled levels of each of the three wired buttons. */
  datatype Inputs = Inputs(button2: seq<bool>, button3: seq<bool>, button4: seq<bool>)

  /** The sample stream read by the task spawned with tag `e`. */
  function Samples(inputs: Inputs, e: ButtonEvent): seq<bool> {
    match e
    case Button2Pressed => inputs.button2
    case Button3Pressed => inputs.button3
    case Button4Pressed => inputs.button4
  }

  /** A sequence in which every element is the same tag holds that tag
      once per element and no other tag. */
  lemma {:induction false} SingleTagCount(events: seq<ButtonEvent>, tag: ButtonEvent, o: ButtonEvent)
    requires forall i :: 0 <= i < |events| ==> events[i] == tag
    ensures multiset(events)[o] == if o == tag then |events| else 0
    decreases |events|
  {
    if |events| > 0 {
      var n := |events| - 1;
      assert events == events[..n] + [events[n]];
      assert multiset(events) == multiset(events[..n]) + multiset{events[n]};
      SingleTagCount(events[..n], tag, o);
    }
  }

  /** Everything the three button tasks send, as a bag of events. */
  function Produced(inputs: Inputs): (m: multiset<ButtonEvent>)
    ensures forall e :: m[e] == Button.RisingEdges(false, Samples(inputs, e))
  {
    ProducedCount(inputs);
    multiset(Button.Emitted(Button.Init(Button2Pressed), inputs.button2))
    + multiset(Button.Emitted(Button.Init(Button3Pressed), inputs.button3))
    + multiset(Button.Emitted(Button.Init(Button4Pressed), inputs.button4))
  }

  /** Each tag is produced once per rising edge of its own button, and by
      no other button's task. */
  lemma ProducedCount(inputs: Inputs)
    ensures forall t, e ::
              multiset(Button.Emitted(Button.Init(t), Samples(inputs, t)))[e]
              == if e == t then Button.RisingEdges(false, Samples(inputs, t)) else 0
    ensures forall e ::
              multiset(Button.Emitted(Button.Init(Button2Pressed), inputs.button2))[e]
              + multiset(Button.Emitted(Button.Init(Button3Pressed), inputs.button3))[e]
              + multiset(Button.Emitted(Button.Init(Button4Pressed), inputs.button4))[e]
              == Button.RisingEdges(false, Samples(inputs, e))
  {
    var sent2 := Button.Emitted(Button.Init(Button2Pressed), inputs.button2);
    var sent3 := Button.Emitted(Button.Init(Button3Pressed), inputs.button3);
    var sent4 := Button.Emitted(Button.Init(Button4Pressed), inputs.button4);
    Button.FreshCountsRisingEdges(Button2Pressed, inputs.button2);
    Button.FreshCountsRisingEdges(Button3Pressed, inputs.button3);
    Button.FreshCountsRisingEdges(Button4Pressed, inputs.button4);
    forall t, e
      ensures multiset(Button.Emitted(Button.Init(t), Samples(inputs, t)))[e]
              == if e == t then Button.RisingEdges(false, Samples(inputs, t)) else 0
    {
      Button.FreshCountsRisingEdges(t, Samples(inputs, t));
      SingleTagCount(Button.Emitted(Button.Init(t), Samples(inputs, t)), t, e);
    }
    forall e | true
      ensures multiset(sent2)[e] + multiset(sent3)[e] + multiset(sent4)[e]
              == Button.RisingEdges(false, Samples(inputs, e))
    {
      SingleTagCount(sent2, Button2Pressed, e);
      SingleTagCount(sent3, Button3Pressed, e);
      SingleTagCount(sent4, Button4Pressed, e);
    }
  }

  /** End to end: whatever order the channel delivers the events in, once
      the controller has consumed all of them each LED is high exactly when
      its button has seen an even number of presses. */
  lemma EndToEnd(inputs: Inputs, consumed: seq<ButtonEvent>, e: ButtonEvent)
    requires multiset(consumed) == Produced(inputs)
    ensures Led.High(Led.ApplyAll(Led.Initial, consumed), e)
        <==> Button.RisingEdges(false, Samples(inputs, e)) % 2 == 0
  {
    Led.InitialParity(consumed, e);
  }
}
