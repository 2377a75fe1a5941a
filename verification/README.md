# breathe_led — a Dafny model of the button/LED control loop

The program runs on an STM32 board. Three button tasks each poll one
push-button, waiting 10 ms between polls. A send into a full channel blocks, which stretches that gap. When a button goes from released to pressed, its task
sends a `ButtonEvent` carrying its own tag into a shared channel. One LED task
receives the events in order and inverts the LED that each tag is wired to.

This project models the two pure state machines inside those tasks. It proves
what they promise over arbitrary input sequences:

- `types.dfy` (`Types`): the `ButtonEvent` enum and an `Option` wrapper.
- `button.dfy` (`Button`): the detector state of one `button_task`, modelled as its
  tag plus its private `button_pressed` flag. Its loop body is the step
  function `Step`, and `After`/`Emitted` fold that step over a sequence of
  sampled levels. `RisingEdges` is a separate reference count of low→high
  transitions; it is defined by recursion from the end of the sequence, so it
  shares no structure with the fold. `Run` is the task's loop written as a
  `while` loop.
- `led.dfy` (`Led`): the three LED levels of `led_task`. `Apply` handles one
  received event and `ApplyAll` folds it over the consumed events. The parity
  and order-independence lemmas are stated in terms of the multiset of
  consumed events. `Control` is the controller's loop.
- `system.dfy` (`System`): the wired configuration, with three detectors
  feeding one controller. The channel is abstracted: the controller consumes,
  in any order, exactly the events the detectors sent. Under that assumption,
  each LED's output ends high exactly when its button saw an even number of rising
  edges.

A sampled level or an output level is a `bool`, where `true` means the pin is high. For an LED this is the pin level, not brightness; whether a high pin lights the LED depends on the board's wiring. Time is a sequence of
samples, one per poll.

## Model

| member | source | states |
|---|---|---|
| Button.Step | src/main.rs:57-66 | after one poll the flag equals the level just read. An event is sent exactly when the level is high and the flag was clear, and that event is the task's own tag. A high level with the flag already set sends nothing, and a low level clears the flag |
| Button.After | src/main.rs:55-66 | after any number of polls the flag mirrors the most recent sample, or keeps its starting value if there were none. The tag never changes |
| Button.Emitted | src/main.rs:53-66 | a detector sends at most one event per sample, and every event carries the tag the task was spawned with. Tags are `Types.ButtonEvent`, which has the three variants of the enum at src/main.rs:15-20 |
| Button.EmittedSnoc | src/main.rs:57-66 | polling one more sample appends exactly what that poll sends, given the state reached so far |
| Button.EmittedCountsRisingEdges | src/main.rs:55-67 | the number of events sent equals the number of low→high transitions in the samples. The starting flag stands in for the level before the first sample |
| Button.FreshCountsRisingEdges | src/main.rs:55-67 | a fresh task sends one event per rising edge, counting from an implicit low level. A fresh task is `Button.Init`, whose flag starts false as at line 55 |
| Button.EmitsExactlyOnRisingEdges | src/main.rs:57-66 | the poll of sample i sends an event if and only if sample i is a rising edge, and the event is the task's tag |
| Button.NoRepeatWithoutRelease | src/main.rs:57-66 | between any two polls that send, some sample strictly between them reads low |
| Button.Run | src/main.rs:53-69 | the task loop over a finite sample prefix sends exactly the events of the step fold: one own-tag event per rising edge |
| Led.Apply | src/main.rs:79-107 | a received event inverts the LED matching its tag and leaves the other two LEDs unchanged |
| Led.ApplyTwice | src/main.rs:79-107 | receiving the same event twice restores the LED state |
| Led.ApplyAll | src/main.rs:78-108 | an LED whose tag never arrives keeps its level |
| Led.ApplyAllSnoc | src/main.rs:78-108 | consuming one more event applies it to the state reached so far |
| Led.Parity | src/main.rs:78-107 | an LED ends at its starting level exactly when its tag arrived an even number of times |
| Led.InitialParity | src/main.rs:74-107 | from the power-on state, an LED is high exactly when its tag arrived an even number of times. The power-on state is `Led.Initial`, with all three outputs high as created at lines 74-76 |
| Led.OrderIrrelevant | src/main.rs:78-108 | two consumption orders of the same events give the same LED state |
| Led.Control | src/main.rs:73-109 | the controller loop over a finite event sequence ends with each LED high exactly when its tag was received an even number of times |
| System.ProducedCount | src/main.rs:39-45 | the task spawned with tag t sends t once per rising edge of its own button and sends no other tag. Summed over the three spawned tasks, each tag is therefore sent once per rising edge of its own button |
| System.Produced | src/main.rs:39-66 | the bag of all events sent holds each tag as many times as its button had rising edges |
| System.EndToEnd | src/main.rs:39-108 | in whatever order the channel delivers the sent events, each LED's output ends high exactly when its button had an even number of rising edges |

## Left out

- The channel (`Channel<ThreadModeRawMutex, ButtonEvent, 3>`) is left out. Its capacity of 3, FIFO order and blocking backpressure are library behaviour. The model only assumes that the controller consumes a sequence holding exactly the events sent. The queue bound and per-producer ordering are therefore not stated.
- Task spawning, the `unwrap` on spawn, and `pool_size` are left out as executor plumbing.
- The GPIO pin setup, `is_high`, `is_set_high`, `set_low` and `set_high` are left out. Levels are plain booleans, and an output's level is its last written value.
- The 10 ms `Timer::after` is left out. The model's input is the sequence of sampled levels, one per poll. A press that begins and ends between two polls is missed by the program, and the model agrees, because no sample records it.
- `info!` logging is left out because it is for observation only.
- Pin assignments are left out. This includes the Button2 pin that is noted as not responding (src/main.rs:38).
- Button1 is left out. `button_task` is declared with `pool_size = 4` (src/main.rs:52), and a fourth tag, Button1, is commented out (src/main.rs:16 and src/main.rs:36). The code spawns three tasks, and the model follows the code with exactly three tags.
