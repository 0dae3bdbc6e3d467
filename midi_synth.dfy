/**
 * The voice allocator `Synth` of tulip/shared/py/midi.py as the stateful
 * object it is: two `Queue` objects, the two lookup tables, the sustain
 * state, and the class-wide pool `allocated_amy_voices` shared by all
 * synths. Every operation is proved to leave exactly the state the functions
 * of `SynthSpec` describe, and to keep `SynthSpec.Inv`.
 */
module MidiSynth {
  import opened Wrappers
  import opened MidiQueue
  import opened SynthSpec

  /**
   * `voices` is what `_get_new_voices(n)` picks: the `n` smallest numbers
   * not yet allocated, in increasing order.
   */
  ghost predicate SmallestFreeVoices(inUse: set<nat>, n: nat, voices: seq<nat>) {
    && |voices| == n
    && (forall i, j :: 0 <= i < j < n ==> voices[i] < voices[j])
    && (forall i :: 0 <= i < n ==> voices[i] !in inUse)
    && (forall x: nat :: x !in inUse && x !in voices ==> forall i :: 0 <= i < n ==> voices[i] < x)
  }

  /** A finite set of numbers has an upper bound. */
  lemma SetBound(s: set<nat>) returns (b: nat)
    ensures forall x :: x in s ==> x < b
  {
    if s == {} {
      b := 0;
    } else {
      var x :| x in s;
      assert forall y :: y in s ==> y == x || y in s - {x};
      var rest := SetBound(s - {x});
      b := if rest > x then rest else x + 1;
    }
  }

  /**
   * The search loop of `_get_new_voices`: counting up from 0, skip the
   * allocated numbers and take the free ones until there are `n`.
   */
  method SmallestFree(inUse: set<nat>, n: nat) returns (voices: seq<nat>)
    ensures SmallestFreeVoices(inUse, n, voices)
  {
    voices := [];
    var next: nat := 0;
    ghost var bound := SetBound(inUse);
    while |voices| < n
      invariant |voices| <= n
      invariant forall i, j :: 0 <= i < j < |voices| ==> voices[i] < voices[j]
      invariant forall i :: 0 <= i < |voices| ==> voices[i] !in inUse && voices[i] < next
      invariant forall x: nat :: x < next && x !in inUse ==> x in voices
    {
      while next in inUse
        invariant forall i :: 0 <= i < |voices| ==> voices[i] < next
        invariant forall x: nat :: x < next && x !in inUse ==> x in voices
        decreases bound - next
      {
        next := next + 1;
      }
      voices := voices + [next];
      next := next + 1;
    }
  }

  /** The loop of `Synth.__init__` that puts every voice index into a new queue, in order. */
  method AllReleased(n: nat) returns (q: Queue<nat>)
    ensures fresh(q) && fresh(q.cells)
    ensures q.Valid() && q.Capacity() == n && q.Contents() == Range(n)
  {
    q := new Queue<nat>(n);
    for i := 0 to n
      invariant fresh(q) && fresh(q.cells)
      invariant q.Valid() && q.Capacity() == n && q.Contents() == Range(i)
    {
      RangeSnoc(i);
      q.Put(i);
    }
  }

  /** A nonempty set of notes has a member. */
  lemma Member(s: set<int>) returns (x: int)
    requires s != {}
    ensures x in s
  {
    if forall y :: y !in s {
      assert false;
    }
    x :| x in s;
  }

  /** The class attribute `Synth.allocated_amy_voices`, shared by every synth. */
  class VoicePool {
    var inUse: set<nat>

    constructor ()
      ensures inUse == {}
    {
      inUse := {};
    }

    /** `_get_new_voices`: picks the `n` smallest free AMY voices and marks them allocated. */
    method Allocate(n: nat) returns (voices: seq<nat>)
      modifies this
      ensures SmallestFreeVoices(old(inUse), n, voices)
      ensures inUse == old(inUse) + (set v | v in voices)
    {
      voices := SmallestFree(inUse, n);
      inUse := inUse + (set v | v in voices);
    }

    /** `reset`: forgets every allocation. */
    method Reset()
      modifies this
      ensures inUse == {}
    {
      inUse := {};
    }

    /**
     * The loop of `release` that hands voices back one by one. `ok` is false
     * for the KeyError raised at the first voice no longer allocated; the
     * voices before it have been removed by then.
     */
    method Free(voices: seq<nat>) returns (ok: bool)
      modifies this
      ensures ok <==> forall i :: 0 <= i < |voices| ==> voices[i] in old(inUse) && voices[i] !in voices[..i]
      ensures ok ==> inUse == old(inUse) - (set v | v in voices)
      ensures !ok ==> exists k :: 0 <= k < |voices| && (voices[k] !in old(inUse) || voices[k] in voices[..k]) &&
                        (forall j :: 0 <= j < k ==> voices[j] in old(inUse) && voices[j] !in voices[..j]) &&
                        inUse == old(inUse) - (set v | v in voices[..k])
      ensures inUse <= old(inUse)
    {
      for i := 0 to |voices|
        invariant inUse == old(inUse) - (set v | v in voices[..i])
        invariant forall k :: 0 <= k < i ==> voices[k] in old(inUse) && voices[k] !in voices[..k]
      {
        if voices[i] !in inUse {
          return false;
        }
        assert voices[..i + 1] == voices[..i] + [voices[i]];
        inUse := inUse - {voices[i]};
      }
      assert voices[..|voices|] == voices;
      return true;
    }
  }

  class Synth {
    const pool: VoicePool
    /** `released_voices` and `active_voices` */
    const released: Queue<nat>
    const active: Queue<nat>
    /** `amy_voice_nums`; `voice_objs` wraps the same numbers */
    var amyVoiceNums: seq<nat>
    var voiceOfNote: map<int, nat>
    var noteOfVoice: seq<Option<int>>
    var sustaining: bool
    var sustainedNotes: set<int>
    /** the messages the voice objects have sent to AMY */
    var sent: seq<AmyMessage>

    /** The state as a value. */
    ghost function Abs(): Voices
      reads this, released, released.cells, active, active.cells
      requires released.Valid() && active.Valid()
    {
      Voices(released.Contents(), active.Contents(), voiceOfNote, noteOfVoice, amyVoiceNums,
             sustaining, sustainedNotes, sent)
    }

    ghost predicate Valid()
      reads this, released, released.cells, active, active.cells
    {
      && released.Valid() && active.Valid() && released != active && released.cells != active.cells
      && released.Capacity() == |noteOfVoice| && active.Capacity() == |noteOfVoice|
      && Inv(Abs())
    }

    /** `Synth(num_voices)`: allocates its AMY voices and releases every voice, in index order. */
    constructor (pool: VoicePool, n: nat)
      modifies pool
      ensures Valid() && this.pool == pool
      ensures SmallestFreeVoices(old(pool.inUse), n, amyVoiceNums)
      ensures pool.inUse == old(pool.inUse) + (set v | v in amyVoiceNums)
      ensures Abs() == Initial(amyVoiceNums)
    {
      var voices := pool.Allocate(n);
      var rel := AllReleased(n);
      var act := new Queue<nat>(n);
      this.pool := pool;
      released, active := rel, act;
      amyVoiceNums, voiceOfNote, noteOfVoice := voices, map[], seq(n, _ => None);
      sustaining, sustainedNotes, sent := false, {}, [];
    }

    /** `_voice_off`: stops voice `v` and forgets its note; the queues are not touched. */
    method VoiceOff(v: nat)
      requires released.Valid() && active.Valid()
      requires v < |noteOfVoice| && v < |amyVoiceNums|
      requires noteOfVoice[v].Some? && noteOfVoice[v].value in voiceOfNote
      modifies this`voiceOfNote, this`noteOfVoice, this`sent
      ensures Abs() == SynthSpec.VoiceOff(old(Abs()), v)
    {
      sent := sent + [NoteOffMsg(amyVoiceNums[v])];
      voiceOfNote := voiceOfNote - {noteOfVoice[v].value};
      noteOfVoice := noteOfVoice[v := None];
    }

    /** `_get_next_voice`: a released voice if any, else the oldest active one, stolen. */
    method NextVoice() returns (pick: Option<nat>)
      requires Valid() && amyVoiceNums != []
      modifies this`voiceOfNote, this`noteOfVoice, this`sent, released`head, active`head
      ensures released.Valid() && active.Valid()
      ensures (Abs(), pick) == SynthSpec.NextVoice(old(Abs()))
    {
      var e := released.Empty();
      if !e {
        pick := released.Get();
        return;
      }
      pick := active.Get();
      if pick.Some? {
        DrainStepInv(old(Abs()));
        VoiceOff(pick.value);
      }
    }

    /** `note_off`; see `SynthSpec.NoteOff`. */
    method NoteOff(note: int)
      requires Valid()
      modifies this`voiceOfNote, this`noteOfVoice, this`sent, this`sustaining, this`sustainedNotes
      modifies released, released.cells, active, active.cells
      ensures Valid() && Abs() == SynthSpec.NoteOff(old(Abs()), note)
    {
      NoteOffInv(Abs(), note);
      if sustaining {
        sustainedNotes := sustainedNotes + {note};
        return;
      }
      if note !in voiceOfNote {
        return;
      }
      var v := voiceOfNote[note];
      VoiceOffForgets(Abs(), v);
      VoiceOff(v);
      var found := active.Remove(v);
      released.Put(v);
    }

    /** `note_on`; see `SynthSpec.NoteOn`. */
    method NoteOn(note: int, velocity: int) returns (status: Status)
      requires Valid()
      modifies this`voiceOfNote, this`noteOfVoice, this`sent, this`sustaining, this`sustainedNotes
      modifies released, released.cells, active, active.cells
      ensures Valid() && (Abs(), status) == SynthSpec.NoteOn(old(Abs()), note, velocity)
    {
      if amyVoiceNums == [] {
        return SynthReleased;
      }
      if velocity == 0 {
        NoteOff(note);
        return Ok;
      }
      if note in voiceOfNote {
        NoteOnInv(Abs(), note, velocity);
        sent := sent + [NoteOnMsg(amyVoiceNums[voiceOfNote[note]], note, velocity)];
        return Ok;
      }
      status := StartNote(note, velocity);
    }

    /** The part of `note_on` that gives a note not yet playing a voice of its own. */
    method StartNote(note: int, velocity: int) returns (status: Status)
      requires Valid() && amyVoiceNums != [] && velocity != 0 && note !in voiceOfNote
      modifies this`voiceOfNote, this`noteOfVoice, this`sent, this`sustaining, this`sustainedNotes
      modifies released, released.cells, active, active.cells
      ensures Valid() && (Abs(), status) == SynthSpec.NoteOn(old(Abs()), note, velocity)
    {
      ghost var s := Abs();
      NoteOnInv(s, note, velocity);
      NextVoiceInv(s);
      var pick := NextVoice();
      if pick.None? {
        return NoFreeVoice;
      }
      Assign(pick.value, note, velocity);
      status := Ok;
    }

    /** Gives the free voice `v` to `note` and starts it; the voice becomes the newest active one. */
    method Assign(v: nat, note: int, velocity: int)
      requires released.Valid() && active.Valid() && released != active && released.cells != active.cells
      requires v < |noteOfVoice| && v < |amyVoiceNums| && active.Capacity() == |noteOfVoice|
      modifies this`voiceOfNote, this`noteOfVoice, this`sent, active, active.cells
      ensures released.Valid() && active.Valid()
      ensures Abs() == old(Abs()).(active := LastN(old(active.Contents()) + [v], |noteOfVoice|),
                                   voiceOfNote := old(voiceOfNote)[note := v],
                                   noteOfVoice := old(noteOfVoice)[v := Some(note)],
                                   sent := old(sent) + [NoteOnMsg(amyVoiceNums[v], note, velocity)])
    {
      active.Put(v);
      voiceOfNote := voiceOfNote[note := v];
      noteOfVoice := noteOfVoice[v := Some(note)];
      sent := sent + [NoteOnMsg(amyVoiceNums[v], note, velocity)];
    }

    /**
     * `sustain`: on, it only sets the flag; off, it clears the flag and sends
     * `note_off` for every recorded note, in whatever order the set yields
     * them, then forgets them.
     */
    method Sustain(state: bool)
      requires Valid()
      modifies this`voiceOfNote, this`noteOfVoice, this`sent, this`sustaining, this`sustainedNotes
      modifies released, released.cells, active, active.cells
      ensures Valid()
      ensures state ==> Abs() == old(Abs()).(sustaining := true)
      ensures !state ==> SustainReleased(old(Abs()), Abs())
    {
      if state {
        sustaining := true;
        return;
      }
      sustaining := false;
      ghost var s0 := Abs();
      ghost var order := ReleaseNotes(sustainedNotes);
      sustainedNotes := {};
      SustainCleared(ReleaseAll(s0, order));
      assert Abs() == ReleaseAll(s0, order).(sustained := {});
    }

    /**
     * The loop of `sustain(False)`: `note_off` for each of `notes`, in an
     * order the set iteration leaves open.
     */
    method ReleaseNotes(notes: set<int>) returns (ghost order: seq<int>)
      requires Valid() && !sustaining
      modifies this`voiceOfNote, this`noteOfVoice, this`sent, this`sustaining, this`sustainedNotes
      modifies released, released.cells, active, active.cells
      ensures Valid() && Enumerates(order, notes)
      ensures Abs() == ReleaseAll(old(Abs()), order)
    {
      ghost var s0 := Abs();
      var pending := notes;
      order := [];
      while pending != {}
        invariant Valid() && Abs() == ReleaseAll(s0, order)
        invariant pending <= notes
        invariant forall i, j :: 0 <= i < j < |order| ==> order[i] != order[j]
        invariant forall i :: 0 <= i < |order| ==> order[i] in notes && order[i] !in pending
        invariant forall note :: note in notes ==> note in pending || note in order
        decreases pending
      {
        ghost var some := Member(pending);
        var note :| note in pending;
        ReleaseAllSnoc(s0, order, note);
        NoteOff(note);
        pending := pending - {note};
        order := order + [note];
      }
    }

    /**
     * `all_notes_off`: sustain off, then stop every active voice, oldest
     * first. The stopped voices are not put back in `released`.
     */
    method AllNotesOff()
      requires Valid()
      modifies this`voiceOfNote, this`noteOfVoice, this`sent, this`sustaining, this`sustainedNotes
      modifies released, released.cells, active, active.cells
      ensures Valid() && SynthSpec.AllNotesOff(old(Abs()), Abs())
      ensures active.Contents() == []
    {
      Sustain(false);
      ghost var m := Abs();
      StopAll();
      assert SustainReleased(old(Abs()), m) && Inv(m) && Abs() == Drain(m);
    }

    /** The loop of `all_notes_off`: stops active voices, oldest first, until none is left. */
    method StopAll()
      requires Valid()
      modifies this`voiceOfNote, this`noteOfVoice, this`sent, active`head
      ensures Valid() && Abs() == Drain(old(Abs())) && active.Contents() == []
    {
      ghost var goal := Drain(Abs());
      while true
        invariant Valid() && Drain(Abs()) == goal
        decreases |active.Contents()|
      {
        var e := active.Empty();
        if e {
          break;
        }
        StopOldest();
      }
    }

    /** One iteration of the loop: takes the oldest active voice off `active` and stops it. */
    method StopOldest()
      requires Valid() && active.Contents() != []
      modifies this`voiceOfNote, this`noteOfVoice, this`sent, active`head
      ensures Valid() && Abs() == SynthSpec.StopOldest(old(Abs()))
    {
      DrainStepInv(Abs());
      var voice := active.Get();
      VoiceOff(voice.value);
    }

    /**
     * `release`: all notes off, then every AMY voice of the synth goes back
     * to the pool and the synth keeps none. `ok` is false for the KeyError of
     * `VoicePool.Free`, which leaves the synth its voice numbers.
     */
    method Release() returns (ok: bool)
      requires Valid()
      modifies this`voiceOfNote, this`noteOfVoice, this`sent, this`sustaining, this`sustainedNotes
      modifies this`amyVoiceNums, released, released.cells, active, active.cells, pool
      ensures Valid()
      ensures SynthSpec.AllNotesOff(old(Abs()), Abs().(amyVoices := old(amyVoiceNums)))
      ensures ok <==> forall i :: 0 <= i < |old(amyVoiceNums)| ==>
                        old(amyVoiceNums)[i] in old(pool.inUse) && old(amyVoiceNums)[i] !in old(amyVoiceNums)[..i]
      ensures ok ==> amyVoiceNums == [] && pool.inUse == old(pool.inUse) - (set v | v in old(amyVoiceNums))
      ensures !ok ==> amyVoiceNums == old(amyVoiceNums) && pool.inUse <= old(pool.inUse)
    {
      AllNotesOff();
      ok := ReturnVoices();
    }

    /** The loop of `release` over `amy_voice_nums`, on a synth with no active voice. */
    method ReturnVoices() returns (ok: bool)
      requires Valid() && active.Contents() == []
      modifies this`amyVoiceNums, pool
      ensures Valid() && Abs() == old(Abs()).(amyVoices := amyVoiceNums)
      ensures ok <==> forall i :: 0 <= i < |old(amyVoiceNums)| ==>
                        old(amyVoiceNums)[i] in old(pool.inUse) && old(amyVoiceNums)[i] !in old(amyVoiceNums)[..i]
      ensures ok ==> amyVoiceNums == [] && pool.inUse == old(pool.inUse) - (set v | v in old(amyVoiceNums))
      ensures !ok ==> amyVoiceNums == old(amyVoiceNums) && pool.inUse <= old(pool.inUse)
    {
      ghost var r := Abs();
      ok := pool.Free(amyVoiceNums);
      if ok {
        amyVoiceNums := [];
        Unvoiced(r);
      }
    }
  }
}
