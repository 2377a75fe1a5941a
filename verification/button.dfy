/** The edge detector run by every `button_task`: a private "already
    pressed" flag, a level sampled once per poll, and at most one event
    sent per poll. Time and the GPIO read are abstracted to a sequence of
    sampled levels (`true` is high). */
module Button {
  import opened Types

  /** State of one button task: the tag it was spawned with and its flag. */
  datatype Detector = Detector(tag: ButtonEvent, pressed: bool)

  /** Result of one poll: the next state and the event sent, if any. */
  datatype Poll = Poll(next: Detector, event: Option<ButtonEvent>)

  /** A freshly spawned task: its flag starts cleared. */
  function Init(tag: ButtonEvent): Detector {
    Detector(tag, false)
  }

  /** One iteration of the task's loop body. The flag always ends equal to
      the level just sampled, and an event is sent exactly when the level
      is high and the flag was still clear. */
  function Step(d: Detector, level: bool): (p: Poll)
    ensures p.next.tag == d.tag
    ensures p.next.pressed == level
    ensures p.event.Some? <==> level && !d.pressed
    ensures p.event.Some? ==> p.event.value == d.tag
  {
    if level then
      if !d.pressed then Poll(d.(pressed := true), Some(d.tag))
      else Poll(d, None)
    else
      Poll(d.(pressed := false), None)
  }

  /** The events one poll puts on the channel, as a sequence of length 0 or 1. */
  function Sent(p: Poll): seq<ButtonEvent> {
    if p.event.Some? then [p.event.value] else []
  }

  /** State after polling every level in `samples`, in order. Whatever
      came before, the flag mirrors the most recent sample. */
  function After(d: Detector, samples: seq<bool>): (d': Detector)
    ensures d'.tag == d.tag
    ensures d'.pressed == if |samples| == 0 then d.pressed else samples[|samples| - 1]
    decreases |samples|
  {
    if |samples| == 0 then d
    else After(Step(d, samples[0]).next, samples[1..])
  }

  /** Every event sent while polling `samples`, in the order sent. At most
      one event per sample, and each carries the task's own tag. */
  function Emitted(d: Detector, samples: seq<bool>): (events: seq<ButtonEvent>)
    ensures |events| <= |samples|
    ensures forall i :: 0 <= i < |events| ==> events[i] == d.tag
    decreases |samples|
  {
    if |samples| == 0 then []
    else
      var p := Step(d, samples[0]);
      Sent(p) + Emitted(p.next, samples[1..])
  }

  /** What the poll of sample `i` sends, given everything before it. */
  function EmittedAt(d: Detector, samples: seq<bool>, i: nat): Option<ButtonEvent>
    requires i < |samples|
  {
    Step(After(d, samples[..i]), samples[i]).event
  }

  /** Reference notion, independent of the detector: sample `i` is high and
      the level before it (`initial` for the first sample) was low. */
  predicate RisingEdge(initial: bool, samples: seq<bool>, i: nat)
    requires i < |samples|
  {
    samples[i] && !(if i == 0 then initial else samples[i - 1])
  }

  /** Number of rising edges in `samples`, counted from the last sample
      backwards so that it shares no structure with `Emitted`. */
  function RisingEdges(initial: bool, samples: seq<bool>): nat
    decreases |samples|
  {
    if |samples| == 0 then 0
    else
      var n := |samples| - 1;
      RisingEdges(initial, samples[..n]) + (if RisingEdge(initial, samples, n) then 1 else 0)
  }

  /** Polling one more sample appends exactly what that poll sends. */
  lemma {:induction false} EmittedSnoc(d: Detector, samples: seq<bool>, level: bool)
    ensures Emitted(d, samples + [level]) == Emitted(d, samples) + Sent(Step(After(d, samples), level))
    decreases |samples|
  {
    if |samples| == 0 {
      assert [level][1..] == [];
    } else {
      var p := Step(d, samples[0]);
      assert (samples + [level])[0] == samples[0];
      assert (samples + [level])[1..] == samples[1..] + [level];
      EmittedSnoc(p.next, samples[1..], level);
    }
  }

  /** The number of events sent equals the number of rising edges, with
      the level before the first sample given by the starting flag. */
  lemma {:induction false} EmittedCountsRisingEdges(d: Detector, samples: seq<bool>)
    ensures |Emitted(d, samples)| == RisingEdges(d.pressed, samples)
    decreases |samples|
  {
    if |samples| > 0 {
      var n := |samples| - 1;
      var prefix := samples[..n];
      assert samples == prefix + [samples[n]];
      EmittedSnoc(d, prefix, samples[n]);
      EmittedCountsRisingEdges(d, prefix);
      var p := Step(After(d, prefix), samples[n]);
      assert p.event.Some? <==> RisingEdge(d.pressed, samples, n);
    }
  }

  /** From a fresh task the count starts from an implicit low level. */
  lemma FreshCountsRisingEdges(tag: ButtonEvent, samples: seq<bool>)
    ensures |Emitted(Init(tag), samples)| == RisingEdges(false, samples)
  {
    EmittedCountsRisingEdges(Init(tag), samples);
  }

  /** Poll by poll: sample `i` sends an event exactly when it is a rising edge. */
  lemma EmitsExactlyOnRisingEdges(d: Detector, samples: seq<bool>, i: nat)
    requires i < |samples|
    ensures EmittedAt(d, samples, i).Some? <==> RisingEdge(d.pressed, samples, i)
    ensures EmittedAt(d, samples, i).Some? ==> EmittedAt(d, samples, i).value == d.tag
  {
  }

  /** Holding the button down never sends twice: between any two polls
      that send, some sample in between reads low. */
  lemma NoRepeatWithoutRelease(d: Detector, samples: seq<bool>, i: nat, j: nat)
    requires i < j < |samples|
    requires EmittedAt(d, samples, i).Some?
    requires EmittedAt(d, samples, j).Some?
    ensures exists k :: i < k < j && !samples[k]
  {
  }

  /** The task's unbounded loop, run over a finite prefix of samples.
      Returns the events it sent, in order. */
  method Run(tag: ButtonEvent, samples: seq<bool>) returns (events: seq<ButtonEvent>)
    ensures events == Emitted(Init(tag), samples)
    ensures |events| == RisingEdges(false, samples)
    ensures forall i :: 0 <= i < |events| ==> events[i] == tag
  {
    var d := Init(tag);
    events := [];
    var i := 0;
    while i < |samples|
      invariant 0 <= i <= |samples|
      invariant d == After(Init(tag), samples[..i])
      invariant events == Emitted(Init(tag), samples[..i])
    {
      var p := Step(d, samples[i]);
      assert samples[..i + 1] == samples[..i] + [samples[i]];
      EmittedSnoc(Init(tag), samples[..i], samples[i]);
      events := events + Sent(p);
      d := p.next;
      i := i + 1;
    }
    assert samples[..i] == samples;
    FreshCountsRisingEdges(tag, samples);
  }
}
