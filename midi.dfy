/**
 * The MIDI messages the player reads and the publications it makes on its
 * `note` and `playing_status` topics.
 */
module Midi {

  /** A decoded MIDI message as the player sees it: a note-on with its pitch,
      a note-off, or a message of any other type. */
  datatype Msg = NoteOn(pitch: int) | NoteOff | Other

  /** One publication of the node: a Bool on `playing_status` or an Int8 on `note`. */
  datatype Out = Status(playing: bool) | Note(value: int)

  /** The value published on `note` for a note-off and to silence the buzzer. */
  const AllNotesOff: int := -1

  /** The value a note-on or note-off message publishes on `note`. */
  function NoteValue(m: Msg): (v: int)
    requires !m.Other?
    ensures m.NoteOn? ==> v == m.pitch
    ensures m.NoteOff? ==> v == AllNotesOff
  {
    if m.NoteOn? then m.pitch else AllNotesOff
  }

  /** What forwarding one message publishes: nothing for other message types. */
  function Emit(m: Msg): (r: seq<Out>)
    ensures |r| == (if m.Other? then 0 else 1)
    ensures forall o | o in r :: o.Note?
  {
    if m.Other? then [] else [Note(NoteValue(m))]
  }

  /** The publications made by forwarding `msgs` one after the other. */
  function Translate(msgs: seq<Msg>): (r: seq<Out>)
    ensures |r| <= |msgs|
  {
    if msgs == [] then [] else Translate(msgs[..|msgs| - 1]) + Emit(msgs[|msgs| - 1])
  }

  /** How many of `msgs` are note-on or note-off messages. */
  function NoteCount(msgs: seq<Msg>): nat
  {
    if msgs == [] then 0
    else NoteCount(msgs[..|msgs| - 1]) + (if msgs[|msgs| - 1].Other? then 0 else 1)
  }

  /** Forwarding messages publishes on `note` only. */
  lemma {:induction false} TranslateOnlyNotes(msgs: seq<Msg>)
    ensures forall j | 0 <= j < |Translate(msgs)| :: Translate(msgs)[j].Note?
  {
    if msgs != [] {
      TranslateOnlyNotes(msgs[..|msgs| - 1]);
    }
  }

  lemma {:induction false} TranslateAppend(a: seq<Msg>, b: seq<Msg>)
    ensures Translate(a + b) == Translate(a) + Translate(b)
    decreases |b|
  {
    if b == [] {
      assert a + b == a;
    } else {
      var b' := b[..|b| - 1];
      assert (a + b)[..|a + b| - 1] == a + b';
      TranslateAppend(a, b');
    }
  }

  lemma TranslateSnoc(s: seq<Msg>, m: Msg)
    ensures Translate(s + [m]) == Translate(s) + Emit(m)
  {
    assert (s + [m])[..|s|] == s;
  }

  lemma TranslateStep(msgs: seq<Msg>, i: nat)
    requires i < |msgs|
    ensures Translate(msgs[..i + 1]) == Translate(msgs[..i]) + Emit(msgs[i])
  {
    assert msgs[..i + 1] == msgs[..i] + [msgs[i]];
    TranslateSnoc(msgs[..i], msgs[i]);
  }

  lemma AppendAssoc(a: seq<Out>, b: seq<Out>, c: seq<Out>)
    ensures (a + b) + c == a + (b + c)
  {
  }

  /** One publication per note message, none for the others. */
  lemma {:induction false} TranslateLength(msgs: seq<Msg>)
    ensures |Translate(msgs)| == NoteCount(msgs)
  {
    if msgs != [] {
      TranslateLength(msgs[..|msgs| - 1]);
    }
  }

  /** Order is kept: the note message at index i publishes its value at the
      position given by the number of note messages before it. */
  lemma TranslateAt(msgs: seq<Msg>, i: nat)
    requires i < |msgs| && !msgs[i].Other?
    ensures NoteCount(msgs[..i]) < |Translate(msgs)|
    ensures Translate(msgs)[NoteCount(msgs[..i])] == Note(NoteValue(msgs[i]))
  {
    var pre, post := msgs[..i], msgs[i + 1..];
    assert msgs == (pre + [msgs[i]]) + post;
    assert (pre + [msgs[i]])[..i] == pre;
    TranslateAppend(pre + [msgs[i]], post);
    TranslateLength(pre);
  }

  /** The values published on `playing_status`, in order. */
  function StatusTrace(out: seq<Out>): seq<bool>
  {
    if out == [] then []
    else StatusTrace(out[..|out| - 1])
         + (if out[|out| - 1].Status? then [out[|out| - 1].playing] else [])
  }

  lemma {:induction false} StatusTraceAppend(a: seq<Out>, b: seq<Out>)
    ensures StatusTrace(a + b) == StatusTrace(a) + StatusTrace(b)
    decreases |b|
  {
    if b == [] {
      assert a + b == a;
    } else {
      var b' := b[..|b| - 1];
      assert (a + b)[..|a + b| - 1] == a + b';
      StatusTraceAppend(a, b');
    }
  }

  lemma {:induction false} NotesHaveNoStatus(out: seq<Out>)
    requires forall j | 0 <= j < |out| :: out[j].Note?
    ensures StatusTrace(out) == []
  {
    if out != [] {
      NotesHaveNoStatus(out[..|out| - 1]);
    }
  }

  /** Status values alternate true, false, true, false, ... and every true
      has been followed by its false. */
  ghost predicate Alternating(s: seq<bool>)
  {
    |s| % 2 == 0 && forall i | 0 <= i < |s| :: s[i] == (i % 2 == 0)
  }

  lemma AlternatingExtend(s: seq<bool>)
    requires Alternating(s)
    ensures Alternating(s + [true, false])
  {
  }
}
