/**
 * What one playback worker publishes, as a function of the melody, the loop
 * flag and the point at which the worker finds the playing flag cleared.
 */
module Worker {
  import opened Midi

  /**
   * When the worker first finds the playing flag cleared: never, or at the
   * check made before message `index` of traversal `traversal` (traversals
   * are counted from 0). The check of the outer loop's guard before a
   * traversal counts as the check before its message 0; an index past the
   * end of the melody stands for the guard check before the next traversal.
   */
  datatype Cancel = Never | At(traversal: nat, index: nat)

  /** Whether the check before message i of traversal t finds the flag cleared. */
  predicate Observed(c: Cancel, t: nat, i: nat)
  {
    c.At? && (c.traversal < t || (c.traversal == t && c.index <= i))
  }

  /** Cancellation point c1 comes no later than c2. */
  predicate NoLater(c1: Cancel, c2: Cancel)
  {
    c2.Never? ||
    (c1.At? && (c1.traversal < c2.traversal || (c1.traversal == c2.traversal && c1.index <= c2.index)))
  }

  function Min(a: nat, b: nat): nat
  {
    if a <= b then a else b
  }

  /** n whole traversals of a melody, one after the other. */
  function Repeat(s: seq<Msg>, n: nat): seq<Msg>
  {
    if n == 0 then [] else Repeat(s, n - 1) + s
  }

  /**
   * The messages the worker forwards before it exits. Without looping it
   * makes one traversal, cut short if the flag is found cleared during it;
   * with looping it traverses again and again until the flag is found cleared.
   * A looping worker that is never stopped never exits, hence the requires.
   */
  function Played(msgs: seq<Msg>, loop: bool, c: Cancel): (r: seq<Msg>)
    requires loop ==> c.At?
    ensures !loop ==> r <= msgs
    ensures !loop && c.Never? ==> r == msgs
  {
    if loop then Repeat(msgs, c.traversal) + msgs[..Min(c.index, |msgs|)]
    else if c.At? && c.traversal == 0 then msgs[..Min(c.index, |msgs|)]
    else msgs
  }

  /** Everything one worker run publishes: the opening status, its notes,
      then the closing note-off and status on every exit path. */
  function WorkerOutput(msgs: seq<Msg>, loop: bool, c: Cancel): (r: seq<Out>)
    requires loop ==> c.At?
    ensures |r| == NoteCount(Played(msgs, loop, c)) + 3
  {
    TranslateLength(Played(msgs, loop, c));
    [Status(true)] + Translate(Played(msgs, loop, c)) + [Note(AllNotesOff), Status(false)]
  }

  /** Whether the worker exits because it found the flag cleared (rather than
      clearing the flag itself after one non-looping traversal). */
  predicate CancelSeen(msgs: seq<Msg>, loop: bool, c: Cancel)
  {
    loop || (c.At? && c.traversal == 0 && (c.index == 0 || c.index < |msgs|))
  }

  /** Where the worker stands when the check before message i of traversal t
      is the first to find the flag cleared. */
  lemma PlayedWhenSeenInTraversal(msgs: seq<Msg>, loop: bool, c: Cancel, t: nat, i: nat)
    requires loop ==> c.At?
    requires !loop ==> t == 0
    requires i < |msgs| && Observed(c, t, i) && !Observed(c, t, 0) && (i > 0 ==> !Observed(c, t, i - 1))
    ensures Played(msgs, loop, c) == Repeat(msgs, t) + msgs[..i]
    ensures CancelSeen(msgs, loop, c)
  {
  }

  /** Where a looping worker stands when the guard before traversal t is the
      first check to find the flag cleared. */
  lemma PlayedWhenSeenAtGuard(msgs: seq<Msg>, c: Cancel, t: nat)
    requires c.At? && Observed(c, t, 0)
    requires t <= c.traversal + 1 && (t == c.traversal + 1 ==> c.index >= |msgs|)
    ensures Played(msgs, true, c) == Repeat(msgs, t)
  {
    if t == c.traversal + 1 {
      assert msgs[..Min(c.index, |msgs|)] == msgs;
    }
  }

  /** A non-looping traversal that never found the flag cleared forwarded
      the whole melody. */
  lemma PlayedWholeOnce(msgs: seq<Msg>, c: Cancel)
    requires !Observed(c, 0, 0) && (|msgs| > 0 ==> !Observed(c, 0, |msgs| - 1))
    ensures Played(msgs, false, c) == Repeat(msgs, 0) + msgs
    ensures !CancelSeen(msgs, false, c)
  {
    assert msgs[..|msgs|] == msgs;
  }

  /** What the worker has published when the check before message i of
      traversal t is the first to find the flag cleared. */
  lemma OutputWhenSeenInTraversal(msgs: seq<Msg>, loop: bool, c: Cancel, t: nat, i: nat)
    requires loop ==> c.At?
    requires !loop ==> t == 0
    requires i < |msgs| && Observed(c, t, i) && !Observed(c, t, 0) && (i > 0 ==> !Observed(c, t, i - 1))
    ensures WorkerOutput(msgs, loop, c)
         == ([Status(true)] + Translate(Repeat(msgs, t))) + (Translate(msgs[..i]) + [Note(AllNotesOff), Status(false)])
    ensures CancelSeen(msgs, loop, c)
  {
    var opening, closing := [Status(true)], [Note(AllNotesOff), Status(false)];
    var whole, part := Translate(Repeat(msgs, t)), Translate(msgs[..i]);
    assert Translate(Played(msgs, loop, c)) == whole + part by {
      PlayedWhenSeenInTraversal(msgs, loop, c, t, i);
      TranslateAppend(Repeat(msgs, t), msgs[..i]);
    }
    AppendAssoc(opening, whole, part);
    AppendAssoc(opening + whole, part, closing);
    PlayedWhenSeenInTraversal(msgs, loop, c, t, i);
  }

  /** What the worker has published when the loop guard before traversal t
      is the first check to find the flag cleared. */
  lemma OutputWhenSeenAtGuard(msgs: seq<Msg>, loop: bool, c: Cancel, t: nat)
    requires loop ==> c.At? && t <= c.traversal + 1 && (t == c.traversal + 1 ==> c.index >= |msgs|)
    requires !loop ==> t == 0
    requires Observed(c, t, 0)
    ensures WorkerOutput(msgs, loop, c)
         == ([Status(true)] + Translate(Repeat(msgs, t))) + [Note(AllNotesOff), Status(false)]
    ensures CancelSeen(msgs, loop, c)
  {
    if loop {
      PlayedWhenSeenAtGuard(msgs, c, t);
    } else {
      assert Played(msgs, loop, c) == [];
    }
  }

  /** What a non-looping worker has published when it got through its
      traversal without finding the flag cleared. */
  lemma OutputWholeOnce(msgs: seq<Msg>, c: Cancel)
    requires !Observed(c, 0, 0) && (|msgs| > 0 ==> !Observed(c, 0, |msgs| - 1))
    ensures WorkerOutput(msgs, false, c)
         == ([Status(true)] + Translate(Repeat(msgs, 0) + msgs)) + [Note(AllNotesOff), Status(false)]
    ensures !CancelSeen(msgs, false, c)
  {
    PlayedWholeOnce(msgs, c);
  }

  lemma {:induction false} RepeatLength(s: seq<Msg>, n: nat)
    ensures |Repeat(s, n)| == n * |s|
  {
    if n > 0 {
      RepeatLength(s, n - 1);
      assert n * |s| == (n - 1) * |s| + |s|;
    }
  }

  lemma {:induction false} RepeatPrefix(s: seq<Msg>, m: nat, n: nat)
    requires m <= n
    ensures Repeat(s, m) <= Repeat(s, n)
    decreases n
  {
    if m < n {
      RepeatPrefix(s, m, n - 1);
    }
  }

  /** Every run is bracketed: one true status first, one false status last,
      right after a note-off, and only notes in between. */
  lemma WorkerBrackets(msgs: seq<Msg>, loop: bool, c: Cancel)
    requires loop ==> c.At?
    ensures var r := WorkerOutput(msgs, loop, c);
      && |r| >= 3
      && r[0] == Status(true)
      && r[|r| - 2] == Note(AllNotesOff)
      && r[|r| - 1] == Status(false)
      && (forall j | 0 < j < |r| - 1 :: r[j].Note?)
      && StatusTrace(r) == [true, false]
  {
    var notes := Translate(Played(msgs, loop, c));
    var opening, closing := [Status(true)], [Note(AllNotesOff), Status(false)];
    var r := WorkerOutput(msgs, loop, c);
    assert r == (opening + notes) + closing;
    assert forall j | 0 < j < |r| - 1 :: r[j].Note? by {
      TranslateOnlyNotes(Played(msgs, loop, c));
      assert forall j | 0 < j <= |notes| :: r[j] == notes[j - 1];
    }
    assert StatusTrace(opening + notes) == [true] by {
      TranslateOnlyNotes(Played(msgs, loop, c));
      NotesHaveNoStatus(notes);
      StatusTraceAppend(opening, notes);
      assert opening[..0] == [];
    }
    assert StatusTrace(closing) == [false] by {
      assert closing[..1] == [Note(AllNotesOff)];
      assert closing[..1][..0] == [];
    }
    StatusTraceAppend(opening + notes, closing);
  }

  /** A finished session keeps the status stream alternating. */
  lemma SessionKeepsAlternation(log: seq<Out>, msgs: seq<Msg>, loop: bool, c: Cancel)
    requires loop ==> c.At?
    requires Alternating(StatusTrace(log))
    ensures Alternating(StatusTrace(log + WorkerOutput(msgs, loop, c)))
  {
    WorkerBrackets(msgs, loop, c);
    StatusTraceAppend(log, WorkerOutput(msgs, loop, c));
    AlternatingExtend(StatusTrace(log));
  }

  /** A non-looping run that is not stopped publishes the true status, then
      every note message's value in the melody's order, then -1 and false. */
  lemma PlayOnceInOrder(msgs: seq<Msg>, i: nat)
    requires i < |msgs| && !msgs[i].Other?
    ensures var r := WorkerOutput(msgs, false, Never);
      && |r| == NoteCount(msgs) + 3
      && NoteCount(msgs[..i]) < NoteCount(msgs)
      && r[1 + NoteCount(msgs[..i])] == Note(NoteValue(msgs[i]))
  {
    TranslateLength(msgs);
    TranslateAt(msgs, i);
  }

  /** A looping run stopped at (t, k) forwards exactly t whole traversals and
      the first k messages of traversal t. */
  lemma LoopedLength(msgs: seq<Msg>, t: nat, k: nat)
    ensures |Played(msgs, true, At(t, k))| == t * |msgs| + Min(k, |msgs|)
  {
    RepeatLength(msgs, t);
  }

  /** In a looping run stopped at (t, k), message j of traversal q is forwarded
      for every (q, j) before (t, k), at position q * |msgs| + j. */
  lemma LoopedMessage(msgs: seq<Msg>, t: nat, k: nat, q: nat, j: nat)
    requires j < |msgs|
    requires q < t || (q == t && j < k)
    ensures q * |msgs| + j < |Played(msgs, true, At(t, k))|
    ensures Played(msgs, true, At(t, k))[q * |msgs| + j] == msgs[j]
  {
    RepeatLength(msgs, q);
    RepeatLength(msgs, t);
    assert Repeat(msgs, q + 1) == Repeat(msgs, q) + msgs;
    if q < t {
      RepeatPrefix(msgs, q + 1, t);
      RepeatLength(msgs, q + 1);
      assert (q + 1) * |msgs| == q * |msgs| + |msgs|;
      assert t * |msgs| >= (q + 1) * |msgs| by {
        assert t * |msgs| == (q + 1) * |msgs| + (t - q - 1) * |msgs|;
      }
    }
  }

  lemma {:induction false} RepeatEmpty(n: nat)
    ensures Repeat([], n) == []
  {
    if n > 0 {
      RepeatEmpty(n - 1);
    }
  }

  /** An empty melody still publishes the opening status and the closing
      note-off and status, looping or not. */
  lemma EmptyMelody(loop: bool, c: Cancel)
    requires loop ==> c.At?
    ensures WorkerOutput([], loop, c) == [Status(true), Note(AllNotesOff), Status(false)]
  {
    if loop {
      RepeatEmpty(c.traversal);
    }
  }

  lemma TranslatePrefix(a: seq<Msg>, b: seq<Msg>)
    requires a <= b
    ensures Translate(a) <= Translate(b)
  {
    assert b == a + b[|a|..];
    TranslateAppend(a, b[|a|..]);
  }

  /** A later stop never takes back what an earlier one would have let
      through: the messages forwarded up to an earlier cancellation point are
      a prefix of those forwarded up to a later one. */
  lemma PrefixTrans(a: seq<Msg>, b: seq<Msg>, c: seq<Msg>)
    requires a <= b && b <= c
    ensures a <= c
  {
    assert c[..|a|] == c[..|b|][..|a|];
  }

  /** The part of a run's output before the closing note-off and status. */
  lemma OutputBody(msgs: seq<Msg>, loop: bool, c: Cancel)
    requires loop ==> c.At?
    ensures var r := WorkerOutput(msgs, loop, c);
      |r| >= 2 && r[..|r| - 2] == [Status(true)] + Translate(Played(msgs, loop, c))
  {
  }

  lemma OpenedPrefix(a: seq<Out>, b: seq<Out>)
    requires a <= b
    ensures [Status(true)] + a <= [Status(true)] + b
  {
    assert ([Status(true)] + b)[..|a| + 1] == [Status(true)] + b[..|a|];
  }

  /** With looping, stopping in an earlier traversal forwards a prefix of
      what stopping in a later one forwards. */
  lemma LoopedPrefix(msgs: seq<Msg>, c1: Cancel, c2: Cancel)
    requires c1.At? && c2.At? && c1.traversal < c2.traversal
    ensures Played(msgs, true, c1) <= Played(msgs, true, c2)
  {
    var once := Repeat(msgs, c1.traversal + 1);
    assert Played(msgs, true, c1) <= once by {
      assert once == Repeat(msgs, c1.traversal) + msgs;
      assert once[..|Played(msgs, true, c1)|] == Played(msgs, true, c1);
    }
    assert once <= Played(msgs, true, c2) by {
      RepeatPrefix(msgs, c1.traversal + 1, c2.traversal);
      assert Played(msgs, true, c2)[..|once|] == Repeat(msgs, c2.traversal)[..|once|];
    }
    PrefixTrans(Played(msgs, true, c1), once, Played(msgs, true, c2));
  }

  /** A later stop never takes back what an earlier one would have let
      through: the messages forwarded up to an earlier cancellation point are
      a prefix of those forwarded up to a later one, and so is the output
      before the closing note-off and status. */
  lemma StopLaterPlaysMore(msgs: seq<Msg>, loop: bool, c1: Cancel, c2: Cancel)
    requires loop ==> c1.At? && c2.At?
    requires NoLater(c1, c2)
    ensures Played(msgs, loop, c1) <= Played(msgs, loop, c2)
    ensures var r1, r2 := WorkerOutput(msgs, loop, c1), WorkerOutput(msgs, loop, c2);
      r1[..|r1| - 2] <= r2[..|r2| - 2]
  {
    var p1, p2 := Played(msgs, loop, c1), Played(msgs, loop, c2);
    if loop && c1.traversal < c2.traversal {
      LoopedPrefix(msgs, c1, c2);
    }
    TranslatePrefix(p1, p2);
    OpenedPrefix(Translate(p1), Translate(p2));
    OutputBody(msgs, loop, c1);
    OutputBody(msgs, loop, c2);
  }
}
