# Tulip sequencer, MIDI voice management and touch decoding in Dafny

This project models three parts of the Tulip Creative Computer firmware and
proves properties about them.

- **The sequencer tick engine** (`tulip/shared/sequencer.c`). A catch-up
  loop runs while the AMY clock has reached the next tick anchor. On each
  tick it advances the 32-bit tick counter, fires every due one-shot
  ("deferred") callback once and clears its slot, fires every periodic slot
  whose divider divides the tick with the timestamp `anchor/1000 + latency`,
  and moves the anchor one tick on. `Sequencer.TickEngine` is a class.
  The C globals are its fields and the two slot tables are arrays.
  `SequencerSpec` describes one tick (`Tick`), `j` ticks (`AfterTicks`)
  and a whole pass (`CatchUp`) as values, and proves:
  - exactly the due anchors are processed, and the loop ends;
  - the counter wraps modulo 2^32;
  - a deferred callback fires at most once: its slot is freed, and no later
    pass at any clock finds it due until a callback is registered there again;
  - the timestamps handed to periodic callbacks never decrease and stay
    within `[anchor/1000 + latency, now + latency]`.
- **The MIDI `Queue` and `Synth`** (`tulip/shared/py/midi.py`):
  - `MidiQueue.Queue` is the circular buffer with one spare cell. Put drops
    the oldest item when full. Get, remove-first-occurrence and the
    close-up of `_delete_at` are all proved against the queue's contents as
    a sequence.
  - `MidiSynth.Synth` keeps a released queue, an active queue, the two
    note/voice tables and the sustain state, over a class-wide pool of AMY
    voice numbers (`MidiSynth.VoicePool`).
  - `SynthSpec` is the same state as a value. Every method of `Synth` is
    proved to compute exactly its function, `all_notes_off` included as
    written (see "## Findings"). The lemmas cover what `note_on`,
    `note_off`, voice stealing, sustain and `all_notes_off` do.
  - `MidiEvent` covers the MIDI callback `midi_event_cb`: the decoding of
    the status byte into a message type and channel, the routing of each
    message, and the 14-bit pitch-bend value.
- **The FT5x06 touch report** (`tulip/esp32s3/ft5x06_touchscreen.c`).
  `Touch.Report` decodes the 32 controller registers into a press with up
  to five points, or a release. The round trip from coordinates to
  registers and back is proved.

`Bits` gives the bitwise operations the sources use (`&`, `|`, `<<`, `>>`)
on naturals, with the facts about masks and nibbles. `Wrappers` holds
`Option`.

## Model

| member | source | states |
|---|---|---|
| Sequencer.TickEngine.constructor | tulip/shared/sequencer.c:44-60 | both slot tables empty, counter and anchor zero, latency 100 ms, running |
| Sequencer.TickEngine.Recompute | tulip/shared/sequencer.c:67-70 | the new tick length is taken, and the anchor becomes `Reanchor`: one tick after the clock (in µs) computed in 32 bits, whatever the old anchor was |
| SequencerSpec.Reanchor | tulip/shared/sequencer.c:69 | the re-anchor is below 2^32; it is one tick after the clock while that fits in 32 bits, and falls short of it once the product wraps |
| SequencerSpec.ReanchorLags | tulip/shared/sequencer.c:69 | as written: at 4294968 ms of uptime with the default tempo (108 BPM at 48 PPQ, 11574 µs per tick) the anchor wraps to 12278 µs, is due at once, and the next pass runs more than 370000 ticks |
| SequencerSpec.Reanchor64Ahead | tulip/shared/sequencer.c:69 | computed in 64 bits, the anchor is exactly one tick after the clock, and with a tick of at least 1 ms a pass at that clock runs no tick |
| Sequencer.TickEngine.Start | tulip/shared/sequencer.c:72-79 | re-anchors as `Recompute` does (32-bit `Reanchor`) and sets the running flag |
| Sequencer.TickEngine.Stop | tulip/shared/sequencer.c:82-89 | clears the running flag and changes nothing else |
| Sequencer.TickEngine.Init | tulip/shared/sequencer.c:92-96 | every periodic slot and every deferred callback and clock is cleared; the deferred arguments are left as they were; the engine is re-anchored by the 32-bit `Reanchor` |
| Sequencer.TickEngine.SweepSlot | tulip/shared/sequencer.c:109-113 | one deferred slot: dispatched with its own argument and cleared exactly when it holds a callback and the clock is past its time |
| Sequencer.TickEngine.SweepDefers | tulip/shared/sequencer.c:108-114 | the table afterwards is `Sweep` of the old one (no slot still due, the others unchanged); the dispatches are the due slots in slot order; the periodic table is untouched |
| Sequencer.TickEngine.FirePeriodic | tulip/shared/sequencer.c:116-123 | appends one dispatch per slot whose divider is nonzero and divides the tick, in slot order, each with the given timestamp |
| Sequencer.TickEngine.TickOnce | tulip/shared/sequencer.c:104-125 | one loop iteration leaves exactly the state `Tick` describes: the counter is incremented mod 2^32, the defers are swept, the periodic slots fire, and the anchor moves by one tick |
| Sequencer.TickEngine.CatchUpTick | tulip/shared/sequencer.c:104-125 | after the j-th due tick the state is `AfterTicks(j+1)` and the anchor is the entry anchor plus j+1 ticks |
| Sequencer.TickEngine.CheckAndFill | tulip/shared/sequencer.c:98-126 | the loop terminates and leaves exactly `CatchUp` of the entry state; the periodic table, tempo and latency are not changed |
| Sequencer.TickEngine.Poll | tulip/shared/sequencer.c:130-137 | one wake-up of a running engine runs a full catch-up pass; a stopped engine, whatever its tick length, is left exactly as it was |
| SequencerSpec.ZeroTickAnchorsDue | tulip/shared/sequencer.c:60-69 | with tick length 0 the initial anchor 0 and every re-anchor at a clock up to now are due now |
| SequencerSpec.ZeroTickStaysDue | tulip/shared/sequencer.c:55-60 | a running engine with tick length 0 (the globals before `sequencer_recompute`) never leaves the loop: every iteration leaves the due anchor where it was |
| SequencerSpec.NextCount | tulip/shared/sequencer.c:105 | the incremented counter stays below 2^32 |
| SequencerSpec.NextCountWraps | tulip/shared/sequencer.c:105 | the `uint32_t` increment is `(t + 1) mod 2^32` |
| SequencerSpec.CountClosedForm | tulip/shared/sequencer.c:105 | k increments from t give `(t + k) mod 2^32` |
| SequencerSpec.AnchorClosedForm | tulip/shared/sequencer.c:124 | after k ticks the anchor is `anchor + k * us_per_tick` |
| SequencerSpec.DueSlots | tulip/shared/sequencer.c:108-109 | lists only slots that hold a callback whose time has passed, in increasing order |
| SequencerSpec.DueSlotsComplete | tulip/shared/sequencer.c:108-109 | every due slot is listed (with `DueSlots`: exactly the due slots) |
| SequencerSpec.DeferFired | tulip/shared/sequencer.c:108-114 | one dispatch per due slot, each with a non-null callback and its slot's argument |
| SequencerSpec.DeferFiredStep | tulip/shared/sequencer.c:108-114 | sweeping slot n appends that slot's own dispatch, if any, to the dispatches of slots 0..n-1 |
| SequencerSpec.SweptUpToStep | tulip/shared/sequencer.c:108-114 | sweeping slots one at a time, in order, gives the whole-table `Sweep`; a slot's outcome does not depend on the slots before it |
| SequencerSpec.Sweep | tulip/shared/sequencer.c:108-114 | every due slot is freed (callback and argument NULL, clock 0), every slot that was not due is unchanged, and no slot is due afterwards |
| SequencerSpec.SweepIdempotent | tulip/shared/sequencer.c:108-114 | sweeping twice at the same clock is sweeping once; the second sweep fires nothing |
| SequencerSpec.FiringSlots | tulip/shared/sequencer.c:116-118 | lists only slots whose divider is nonzero and divides the tick, in increasing order |
| SequencerSpec.FiringSlotsIff | tulip/shared/sequencer.c:116-118 | a slot is listed if and only if its divider is nonzero and divides the tick |
| SequencerSpec.PeriodicFired | tulip/shared/sequencer.c:116-123 | one dispatch per firing slot, all carrying the same timestamp |
| SequencerSpec.PeriodicFiredStep | tulip/shared/sequencer.c:116-123 | slot n adds its dispatch exactly when its divider is nonzero and divides the tick |
| SequencerSpec.Tick | tulip/shared/sequencer.c:104-125 | one tick moves the anchor by exactly one tick length and keeps the counter below 2^32 and the table size |
| SequencerSpec.AfterTicksStep | tulip/shared/sequencer.c:104-125 | j+1 ticks are one tick after j ticks |
| SequencerSpec.TicksDueExact | tulip/shared/sequencer.c:104 | the k-th anchor is due exactly for k below `TicksDue` |
| SequencerSpec.TicksDueUnique | tulip/shared/sequencer.c:104 | the first anchor that is not due is at index `TicksDue` |
| SequencerSpec.CatchUp | tulip/shared/sequencer.c:98-126 | a pass where the first anchor is not yet due changes nothing |
| SequencerSpec.CatchUpExit | tulip/shared/sequencer.c:104 | after a pass the next anchor lies after the clock, so the loop condition is false |
| SequencerSpec.CatchUpCount | tulip/shared/sequencer.c:104-125 | a pass runs exactly the due anchors: the counter advances by their number mod 2^32 and the anchor by that many ticks |
| SequencerSpec.CatchUpDefersOnce | tulip/shared/sequencer.c:104-125 | a second pass at the same clock changes nothing; after a pass that ticked every slot that was due is freed (NULL, NULL, 0) and none is due |
| SequencerSpec.FiredSlotFreed | tulip/shared/sequencer.c:108-114 | a slot that fired in a pass is due at no later clock, so no later pass fires it, and a later pass leaves it free: a deferred callback fires at most once |
| SequencerSpec.PeriodicRunSorted | tulip/shared/sequencer.c:116-124 | the periodic timestamps over consecutive ticks never decrease |
| SequencerSpec.PeriodicRunWithin | tulip/shared/sequencer.c:116-124 | every periodic timestamp lies between the first and the last tick's anchor (in ms) plus the latency |
| SequencerSpec.CatchUpPayloads | tulip/shared/sequencer.c:116-124 | the timestamps a pass schedules are sorted and lie within `[entry anchor/1000 + latency, now + latency]` |
| MidiQueue.Next | tulip/shared/py/midi.py:104-106 | the successor of a pointer stays in the buffer and wraps from the last cell to 0 |
| MidiQueue.Prev | tulip/shared/py/midi.py:108-110 | the predecessor is the pointer whose successor is the given one |
| MidiQueue.PrevNext | tulip/shared/py/midi.py:104-110 | stepping forward and back returns to the same pointer |
| MidiQueue.Count | tulip/shared/py/midi.py:150-151 | the number of items is zero exactly when head equals tail, and the tail is that many cells after the head |
| MidiQueue.Queue.constructor | tulip/shared/py/midi.py:97-102 | a queue of capacity `maxsize` (one spare cell) that holds nothing |
| MidiQueue.Queue.Size | tulip/shared/py/midi.py:150-151 | the number of items held, at most the capacity |
| MidiQueue.Queue.Empty | tulip/shared/py/midi.py:144-145 | true if and only if the queue holds nothing |
| MidiQueue.Queue.Full | tulip/shared/py/midi.py:147-148 | true if and only if the queue holds `maxsize` items |
| MidiQueue.Queue.Put | tulip/shared/py/midi.py:112-118 | the contents become the last `maxsize` items of the old contents followed by the new item, so a full queue drops its oldest item |
| MidiQueue.LastNPut | tulip/shared/py/midi.py:112-118 | putting into a queue that was already truncated gives the same contents as truncating once |
| MidiQueue.Queue.Get | tulip/shared/py/midi.py:153-159 | an empty queue yields the error result and is unchanged; otherwise the oldest item is returned and removed |
| MidiQueue.Queue.DeleteAt | tulip/shared/py/midi.py:120-131 | deleting the k-th item's cell removes exactly that item and keeps the others in order, whether the tail or the head side is closed up |
| MidiQueue.Queue.Remove | tulip/shared/py/midi.py:133-142 | reports whether the value was present (the error case when it was not) and removes its first occurrence only |
| MidiQueue.RemoveFirstAt | tulip/shared/py/midi.py:133-142 | removing the first occurrence at index i removes index i and nothing else |
| MidiQueue.RemoveFirstMultiset | tulip/shared/py/midi.py:133-142 | removing the first occurrence takes exactly one copy of the value out of the multiset of items |
| MidiSynth.SmallestFree | tulip/shared/py/midi.py:240-249 | the search loop returns the n smallest voice numbers not in use, in increasing order |
| MidiSynth.VoicePool.Allocate | tulip/shared/py/midi.py:240-249 | returns the n smallest free voice numbers and marks exactly those as in use |
| MidiSynth.VoicePool.Reset | tulip/shared/py/midi.py:210-215 | no voice number is in use afterwards |
| MidiSynth.VoicePool.Free | tulip/shared/py/midi.py:355-356 | succeeds if and only if every voice is in use and none is given twice; then exactly those are freed; a failure stops at the first voice not in use or repeated, with exactly the voices before it freed |
| MidiSynth.AllReleased | tulip/shared/py/midi.py:219-221 | a queue of capacity n holding the voice indices 0..n-1 in order |
| MidiSynth.Synth.constructor | tulip/shared/py/midi.py:217-238 | the synth takes the n smallest free AMY voices from the pool, and its state is `Initial`: every voice released in index order, none active, no notes |
| SynthSpec.Initial | tulip/shared/py/midi.py:217-227 | the initial state keeps the invariant, releases voices 0..n-1 in order and has none active |
| MidiSynth.Synth.VoiceOff | tulip/shared/py/midi.py:279-284 | the voice's note gets its entry removed and the voice its note cleared; a note-off is sent; the queues are not touched |
| SynthSpec.VoiceOffForgets | tulip/shared/py/midi.py:279-284 | the note a voice plays maps back to that voice, and turning the voice off unmaps exactly that note |
| MidiSynth.Synth.NextVoice | tulip/shared/py/midi.py:268-277 | computes `SynthSpec.NextVoice`: the oldest released voice, else the oldest active voice stolen and silenced, else the error of `get` |
| SynthSpec.NextVoiceInv | tulip/shared/py/midi.py:268-277 | the picked voice is in neither queue and silent, with room for it in `active`; no voice is found only when both queues are empty, and then nothing changes |
| MidiSynth.Synth.NoteOff | tulip/shared/py/midi.py:286-296 | computes `SynthSpec.NoteOff` and keeps the invariant |
| SynthSpec.NoteOffFrees | tulip/shared/py/midi.py:286-296 | while sustaining only the note is recorded; otherwise a sounding note is unmapped, its voice leaves `active` (the others keep their order), joins the back of `released`, and gets a note-off |
| SynthSpec.NoteOffInv | tulip/shared/py/midi.py:286-296 | `note_off` keeps the invariant: the queues are disjoint and hold distinct voices, and the two tables are inverse to each other and to `active` |
| MidiSynth.Synth.NoteOn | tulip/shared/py/midi.py:305-321 | computes `SynthSpec.NoteOn`, including both error outcomes, and keeps the invariant |
| MidiSynth.Synth.StartNote | tulip/shared/py/midi.py:316-321 | a new note with nonzero velocity on a synth with voices is `SynthSpec.NoteOn` |
| MidiSynth.Synth.Assign | tulip/shared/py/midi.py:318-321 | the voice joins the back of `active`, both tables map it to the note, and a note-on is sent |
| SynthSpec.NoteOnOutcome | tulip/shared/py/midi.py:305-321 | fails if and only if the synth was released, or both queues are empty for a new note; a failed call changes nothing; success leaves the note mapped to an active voice that plays it |
| SynthSpec.NoteOnRepeat | tulip/shared/py/midi.py:313-315 | a note-on for a sounding note re-strikes the same voice and changes neither queue nor table |
| SynthSpec.NoteOnSteals | tulip/shared/py/midi.py:271-277 | with no released voice the oldest active voice moves to the back of `active`; its old note is unmapped and sent a note-off; it now plays the new note |
| SynthSpec.NoteOnInv | tulip/shared/py/midi.py:305-321 | `note_on` keeps the invariant |
| MidiSynth.Synth.Sustain | tulip/shared/py/midi.py:323-331 | pedal down only sets the flag; pedal up releases the recorded notes one by one, in some order of the set, then forgets them |
| MidiSynth.Synth.ReleaseNotes | tulip/shared/py/midi.py:329-330 | the notes are released by `note_off` in an order that enumerates the set once each |
| SynthSpec.ReleaseAllUnmaps | tulip/shared/py/midi.py:329-330 | releasing notes unmaps exactly those notes and keeps the invariant |
| SynthSpec.SustainReleasedUnmaps | tulip/shared/py/midi.py:323-331 | pedal up unmaps exactly the recorded notes, whatever the iteration order, and clears sustain and the record |
| SynthSpec.NotesKeepComplete | tulip/shared/py/midi.py:286-321 | `note_on` and `note_off` keep every voice in one of released, active |
| SynthSpec.DrainSilences | tulip/shared/py/midi.py:300-302 | the loop as written silences every voice and leaves `active` empty, but `released` stays as it was |
| SynthSpec.PedalUpIdle | tulip/shared/py/midi.py:323-331 | with sustain off and nothing recorded, pedal up has exactly one outcome: the synth unchanged |
| SynthSpec.AllNotesOffLeaks | tulip/shared/py/midi.py:298-302 | as written, `all_notes_off` of a one-voice synth that played a note has the outcome `Drain`, and after any outcome the synth cannot start another note: `note_on` fails with the error of `get` |
| SynthSpec.DrainReturningFrees | tulip/shared/py/midi.py:298-302 | the corrected loop silences every voice and queues the released voices first, then the active ones in order, as `released` |
| SynthSpec.AllNotesOffReturningFrees | tulip/shared/py/midi.py:298-302 | corrected `all_notes_off`: nothing sounds, sustain is off and empty, and on a synth whose voices were all queued they are all released again |
| SynthSpec.AllNotesOffReturningKeepsVoices | tulip/shared/py/midi.py:298-302 | after the corrected `all_notes_off`, on a synth whose voices were all queued, any note-on succeeds |
| MidiSynth.Synth.AllNotesOff | tulip/shared/py/midi.py:298-302 | as written: sustain off, then every active voice stopped and dropped from `active`, which ends empty; the new state is an outcome of `SynthSpec.AllNotesOff` |
| MidiSynth.Synth.StopAll | tulip/shared/py/midi.py:300-302 | the loop as written leaves exactly `Drain` of the entry state, with `active` empty |
| MidiSynth.Synth.StopOldest | tulip/shared/py/midi.py:301-302 | one iteration: the oldest active voice is taken off `active` and sent a note-off; `released` is unchanged |
| MidiSynth.Synth.Release | tulip/shared/py/midi.py:350-358 | `all_notes_off` as written runs; the AMY voices go back to the pool if and only if each was allocated and none repeats, and then the synth has none |
| MidiSynth.Synth.ReturnVoices | tulip/shared/py/midi.py:355-357 | each AMY voice leaves the pool in turn; success if and only if all were allocated and distinct, and then the synth has none |
| MidiEvent.DecodeHeader | tulip/shared/py/midi.py:569-576 | a message under two bytes is ignored; otherwise type = high nibble, channel = low nibble + 1 in 1..16, control = byte 1, value = byte 2 if present |
| MidiEvent.DecodeTwoBytes | tulip/shared/py/midi.py:573-576 | the header of a two-byte message, in arithmetic terms, with no value |
| MidiEvent.HeaderRoundTrip | tulip/shared/py/midi.py:573-576 | building a status byte from a type and a channel and decoding it gives both back |
| MidiEvent.StatusByteRoundTrip | tulip/shared/py/midi.py:573-574 | decoding a status byte and building it again gives the same byte |
| MidiEvent.PitchBend | tulip/shared/py/midi.py:602-606 | the 14-bit value of two 7-bit data bytes, less 8192, lies in -8192..8191 |
| MidiEvent.PitchBendRoundTrip | tulip/shared/py/midi.py:604 | every bend in -8192..8191 has data bytes that decode to it, and every pair of data bytes is recovered from its bend |
| MidiEvent.Route | tulip/shared/py/midi.py:565-608 | global controls are taken on every channel; unconfigured channels are ignored; each action comes only from its own type, and conversely each type on a configured channel (note-on, note-off, program change, bend, sustain and CC 123 when not a global control) reaches exactly its action with its fields; other types are ignored; a two-byte note-on or bend raises |
| MidiEvent.ZeroVelocityNoteOn | tulip/shared/py/midi.py:592-594 | a note-on of velocity 0 reaches the synth as velocity 0, which `note_on` treats as a note-off |
| Touch.Coordinate | tulip/esp32s3/ft5x06_touchscreen.c:149-150 | a 12-bit coordinate: the low nibble of the high register times 256 plus the low register |
| Touch.CoordinateRoundTrip | tulip/esp32s3/ft5x06_touchscreen.c:149-150 | every coordinate below 4096 is carried exactly by its two registers, and back |
| Touch.PointCount | tulip/esp32s3/ft5x06_touchscreen.c:146 | the number of points is the low three bits of register 2 |
| Touch.Report | tulip/esp32s3/ft5x06_touchscreen.c:137-182 | a missing device or record fails and changes nothing; a failed read fails with a release; a count of 1..5 is a press with that count and, for any register contents, point i at `H_RES - (reg[3+6i] mod 16 * 256 + reg[4+6i])` and `reg[5+6i] mod 16 * 256 + reg[6+6i]`, the two exchanged under `xy_swap`; any other count is a release that keeps the old points |
| Touch.Points | tulip/esp32s3/ft5x06_touchscreen.c:148-170 | the five points of any register contents: first axis mirrored from registers 3+6i and 4+6i, second from 5+6i and 6+6i, exchanged under `xy_swap` |
| Touch.SwapExchangesAxes | tulip/esp32s3/ft5x06_touchscreen.c:148-170 | with `xy_swap` the press is the plain one with the two axes exchanged, and a release is the same |
| Touch.ReportDecodesPress | tulip/esp32s3/ft5x06_touchscreen.c:146-171 | the registers of a press of 1..5 points at given coordinates decode to that press, with the first axis mirrored as `H_RES - x` |
| Touch.Registers | tulip/esp32s3/ft5x06_touchscreen.c:149-158 | the register layout: count in register 2, point i's coordinates at registers 3+6i..6+6i, high byte first |
| Bits.Nibbles | tulip/shared/py/midi.py:573-574 | `b & 0xF0` is b less its low nibble and `b & 0x0F` is its low nibble |

## Left out

- The floating-point tempo formula of `sequencer_recompute` (lines 67-68): the tick length is an input of `Recompute`, `Start` and `Init`.
- The clock `amy_sysclock()` is the parameter `now`, fixed for one pass. The real clock may advance during the loop; a later reading only lets more anchors be due.
- CheckAndFill: requires a nonzero tick length. With `us_per_tick == 0` the source loop never ends once the anchor is due (`SequencerSpec.ZeroTickStaysDue`), and with that tick length every anchor the engine can hold is due: the initial 0, or a re-anchor at or before the clock (`SequencerSpec.ZeroTickAnchorsDue`).
- Sequencer.TickEngine.Poll: requires a nonzero tick length when the engine is running. The globals start running with `us_per_tick == 0` (lines 55 and 60), and a wake-up before `sequencer_recompute` would never return; the start-up order that rules this out is outside the model.
- The ESP timer callback (lines 141-156) runs a pass without looking at `sequencer_running`; it relies on `sequencer_stop` deleting the timer, which is not modelled.
- Timers, the polling thread and `nanosleep`, the ESP timer callbacks and `sequencer_deinit`: only one wake-up (`Poll`) is modelled.
- `mp_sched_schedule` is an append to `log`; the MicroPython scheduler queue and its capacity are not modelled.
- sequencer.h is not part of this model: the slot counts 4 and 16 are constants here.
- The `uint8_t` dividers, the `uint16_t` latency, the `uint32_t` deferred clocks and the `uint64_t` anchor are unbounded naturals. The tick counter's 32-bit wrap and the 32-bit re-anchor product (`Reanchor`) are modelled; the anchor's later additions of `us_per_tick` are not wrapped.
- The unused `lag` variable (line 106).
- `amy.send` becomes the `sent` log of note-on and note-off messages. Patch loading, `store_patch`, `program_change`, `control_change`, `get_patch_state` and `set_patch_state`, and `next_amy_patch_number` are not modelled.
- The velocity scaling `value / 127.` and the float pitch-bend conversion sent to AMY (lines 593 and 605-606): `Route` passes the raw bytes.
- `MidiConfig`, the arpeggiator, `ensure_midi_config` and the program-change and all-notes-off routing targets beyond naming the action. A `GLOBAL_MIDI_CC_BINDINGS` callback is only routed to, not run.
- Python set iteration order in `sustain`: the order is any enumeration of the set, stated existentially.
- The `ValueError('pointer at tail???')` branch of `_delete_at`: `remove` never reaches it, so `DeleteAt` requires a pointer to an item.
- `Queue.name`, `__repr__` and the "dropped oldest item" print.
- `VoiceObject` and `voice_objs`: a voice's note-on and note-off are entries of `sent`.
- `Synth.reset`'s call to `amy.reset()`.
- MidiSynth.VoicePool.Free: the `KeyError` raised at the first voice that is not allocated (or is repeated) is the result `ok == false`; exactly the voices before it are freed, as in Python, but the exception itself does not propagate.
- MidiSynth.Synth.ReturnVoices: on that `KeyError` it promises only that the pool shrank and the synth kept its voice list; which voices were freed is stated by `MidiSynth.VoicePool.Free`.
- MidiSynth.Synth.Release: on the same `KeyError` it reports failure with the synth's voice list kept and only a shrunk pool promised, as `MidiSynth.Synth.ReturnVoices` does.
- display.h is not part of this model: `H_RES` is the parameter `hRes`, and the width of `touch_info_t`'s coordinate fields is not known, so coordinates are integers.
- The I2C transfer `iot_ft5x06_read` is the input `read`: either its 32 registers or a failure.
- SequencerSpec.Tick: its own contract only bounds the new state. The exact content of a pass is stated by the lemmas on `AfterTicks` and `CatchUp` (`AfterTicksStep`, `CatchUpPayloads`).

## Findings

| source | as written | input that shows it | evidently intended | confidence | as-written member | corrected member |
|---|---|---|---|---|---|---|
| tulip/shared/py/midi.py:298-302 | `all_notes_off` takes every voice off `active_voices` and silences it, but never puts it back on `released_voices` | a synth with one voice: `note_on(60, 100)`, `all_notes_off()`, then `note_on(61, 100)` raises the `ValueError` of `Queue.get` | stopped voices return to `released_voices`, as `note_off` does at lines 294-296 | not executed | SynthSpec.AllNotesOffLeaks | SynthSpec.AllNotesOffReturningKeepsVoices |
| tulip/shared/sequencer.c:69 | `sequencer_next_tick_us = amy_sysclock()*1000 + sequencer_us_per_tick` multiplies in 32 bits when the clock is a `uint32_t` (it is formatted with `PRIu32` at lines 103 and 110), so past 4294967 ms the anchor wraps to a small value | a tempo change 4294968 ms after start-up at 11574 µs per tick: the anchor becomes 12278, is due at once, and the next pass fires over 370000 ticks | the anchor is one tick after the current time, the product taken in 64 bits | not executed; assumes `amy_sysclock()` returns `uint32_t` | SequencerSpec.ReanchorLags | SequencerSpec.Reanchor64Ahead |

`MidiSynth.Synth.AllNotesOff`, `MidiSynth.Synth.Release` and the engine's
`Recompute`, `Start` and `Init` follow the code as written. The corrected
`all_notes_off` is the value-level `SynthSpec.AllNotesOffReturning`, and the
64-bit re-anchor is `SequencerSpec.Reanchor64`.
