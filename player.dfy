/**
 * The melody player node: the playing flag, the worker it starts and stops,
 * and everything the worker publishes.
 */
module Player {
  import opened Wrappers
  import opened Midi
  import opened MelodyMap
  import opened Worker

  /** The `success` and `message` fields of a service response. */
  datatype Reply = Reply(success: bool, message: string)

  /** What a start request gives its caller: a response, or the KeyError
      raised while choosing the file. */
  datatype StartOutcome = Answered(reply: Reply) | KeyError(key: string)

  /** A started worker thread: the file it plays and whether it loops. */
  datatype Session = Session(file: string, loop: bool)

  const AlreadyPlaying := Reply(false, "Already playing")
  const Started := Reply(true, "Started")
  const Stopped := Reply(true, "Stopped")
  const NothingPlaying := Reply(false, "Nothing was playing")

  class MelodyPlayerNode {
    /** The `/melody/melody_map` parameter, read once at construction. */
    const melodyMap: map<string, string>
    /** The messages the MIDI decoder yields for each file of the package. */
    const source: string -> seq<Msg>
    /** The `playing_event` flag. */
    var playing: bool
    /** The worker thread that was started and has not yet finished. */
    var running: Option<Session>
    /** Everything published on `note` and `playing_status`, in order. */
    var log: seq<Out>

    /** At most one worker, exactly while the flag is set, and the status
        stream alternates true, false, ... with every session closed. */
    ghost predicate Valid()
      reads this
      ensures Valid() ==> |StatusTrace(log)| % 2 == 0
      ensures Valid() && StatusTrace(log) != [] ==> !StatusTrace(log)[|StatusTrace(log)| - 1]
    {
      (playing <==> running.Some?) && Alternating(StatusTrace(log))
    }

    constructor (melodyMap: map<string, string>, source: string -> seq<Msg>)
      ensures Valid()
      ensures this.melodyMap == melodyMap && this.source == source
      ensures !playing && running == None && log == []
    {
      this.melodyMap := melodyMap;
      this.source := source;
      playing := false;
      running := None;
      log := [];
    }

    /**
     * The worker thread's body. The flag value it reads at each check is
     * given by the cancellation point c; after one traversal without looping
     * it clears the flag itself.
     */
    method PlayMidi(file: string, loop: bool, c: Cancel)
      requires loop ==> c.At?
      modifies this`log, this`playing
      ensures log == old(log) + WorkerOutput(source(file), loop, c)
      ensures playing == (old(playing) && CancelSeen(source(file), loop, c))
    {
      var msgs := source(file);
      log := log + [Status(true)];
      var t: nat := 0;
      while !Observed(c, t, 0)
        invariant log == old(log) + ([Status(true)] + Translate(Repeat(msgs, t)))
        invariant playing == old(playing)
        invariant !loop ==> t == 0
        invariant loop ==> t <= c.traversal + 1 && (t == c.traversal + 1 ==> c.index >= |msgs|)
        decreases if loop then c.traversal + 1 - t else 0
      {
        var cancelled, i := PlayTraversal(msgs, t, c);
        if cancelled {
          assert log == old(log) + WorkerOutput(msgs, loop, c) && CancelSeen(msgs, loop, c) by {
            OutputWhenSeenInTraversal(msgs, loop, c, t, i);
            AppendAssoc(old(log), [Status(true)] + Translate(Repeat(msgs, t)),
                        Translate(msgs[..i]) + [Note(AllNotesOff), Status(false)]);
          }
          return;
        }
        assert log == old(log) + ([Status(true)] + Translate(Repeat(msgs, t) + msgs)) by {
          TranslateAppend(Repeat(msgs, t), msgs);
          AppendAssoc(old(log), [Status(true)] + Translate(Repeat(msgs, t)), Translate(msgs));
          AppendAssoc([Status(true)], Translate(Repeat(msgs, t)), Translate(msgs));
        }
        if !loop {
          playing := false;
          assert !CancelSeen(msgs, loop, c) by {
            OutputWholeOnce(msgs, c);
          }
          break;
        }
        t := t + 1;
      }
      ghost var body := log[|old(log)|..];
      assert old(log) + body + [Note(AllNotesOff), Status(false)] == old(log) + WorkerOutput(msgs, loop, c)
          && playing == (old(playing) && CancelSeen(msgs, loop, c)) by {
        if !loop && !Observed(c, t, 0) {
          OutputWholeOnce(msgs, c);
        } else {
          OutputWhenSeenAtGuard(msgs, loop, c, t);
        }
        AppendAssoc(old(log), body, [Note(AllNotesOff), Status(false)]);
      }
      log := log + [Note(AllNotesOff), Status(false)];
    }

    /**
     * The inner loop of the worker, over traversal t of the melody: it
     * forwards message after message until the check before message i finds
     * the flag cleared, and then publishes -1 and false and reports it;
     * otherwise i ends at the length of the melody.
     */
    method PlayTraversal(msgs: seq<Msg>, t: nat, c: Cancel) returns (cancelled: bool, i: nat)
      requires !Observed(c, t, 0)
      modifies this`log
      ensures i <= |msgs| && cancelled == (i < |msgs|)
      ensures i > 0 ==> !Observed(c, t, i - 1)
      ensures cancelled ==>
        && Observed(c, t, i)
        && log == old(log) + (Translate(msgs[..i]) + [Note(AllNotesOff), Status(false)])
      ensures !cancelled ==> log == old(log) + Translate(msgs)
    {
      cancelled := false;
      i := 0;
      while i < |msgs|
        invariant i <= |msgs|
        invariant log == old(log) + Translate(msgs[..i])
        invariant i > 0 ==> !Observed(c, t, i - 1)
      {
        if Observed(c, t, i) {
          log := log + [Note(AllNotesOff), Status(false)];
          cancelled := true;
          assert log == old(log) + (Translate(msgs[..i]) + [Note(AllNotesOff), Status(false)]) by {
            AppendAssoc(old(log), Translate(msgs[..i]), [Note(AllNotesOff), Status(false)]);
          }
          return;
        }
        log := log + Emit(msgs[i]);
        assert log == old(log) + Translate(msgs[..i + 1]) by {
          TranslateStep(msgs, i);
          AppendAssoc(old(log), Translate(msgs[..i]), Emit(msgs[i]));
        }
        i := i + 1;
      }
      assert msgs[..i] == msgs;
    }

    /** `handle_start`: refused while playing; otherwise choose the file, set
        the flag and start a worker. */
    method Start(melodyId: int, loop: bool) returns (r: StartOutcome)
      requires Valid()
      modifies this`playing, this`running
      ensures Valid() && log == old(log)
      ensures old(playing) ==> r == Answered(AlreadyPlaying) && playing && running == old(running)
      ensures !old(playing) && ChooseFile(melodyMap, melodyId).None? ==>
        r == KeyError(DefaultKey) && !playing && running == None
      ensures !old(playing) && ChooseFile(melodyMap, melodyId).Some? ==>
        r == Answered(Started) && playing
        && running == Some(Session(ChooseFile(melodyMap, melodyId).value, loop))
    {
      if playing {
        return Answered(AlreadyPlaying);
      }
      var file := ChooseFile(melodyMap, melodyId);
      if file.None? {
        return KeyError(DefaultKey);
      }
      playing := true;
      running := Some(Session(file.value, loop));
      r := Answered(Started);
    }

    /** `handle_stop`: refused while idle; otherwise clear the flag and wait
        for the worker, which sees the cleared flag at (t, k). The point is
        ignored when nothing is playing. */
    method Stop(t: nat, k: nat) returns (r: Reply)
      requires Valid()
      modifies this
      ensures Valid() && !playing && running == None
      ensures old(playing) ==>
        && r == Stopped
        && log == old(log) + WorkerOutput(source(old(running).value.file), old(running).value.loop, At(t, k))
      ensures !old(playing) ==> r == NothingPlaying && log == old(log)
    {
      if playing {
        playing := false;
        var session := running.value;
        SessionKeepsAlternation(log, source(session.file), session.loop, At(t, k));
        PlayMidi(session.file, session.loop, At(t, k));
        running := None;
        r := Stopped;
      } else {
        r := NothingPlaying;
      }
    }

    /** The worker of a non-looping session reaches the end of its melody
        without being stopped, clears the flag and exits. */
    method Complete()
      requires Valid() && running.Some? && !running.value.loop
      modifies this
      ensures Valid() && !playing && running == None
      ensures log == old(log) + WorkerOutput(source(old(running).value.file), false, Never)
    {
      var session := running.value;
      SessionKeepsAlternation(log, source(session.file), false, Never);
      PlayMidi(session.file, false, Never);
      running := None;
    }
  }

  /** The melody of the scenarios below: note 60, off, note 64, off. */
  const Demo: seq<Msg> := [NoteOn(60), NoteOff, NoteOn(64), NoteOff]

  lemma DemoOutput()
    ensures WorkerOutput(Demo, false, Never)
         == [Status(true), Note(60), Note(-1), Note(64), Note(-1), Note(-1), Status(false)]
  {
    TwoNotesOutput(60, 64);
  }

  lemma TwoNotesOutput(p: int, q: int)
    ensures Translate([NoteOn(p), NoteOff, NoteOn(q), NoteOff]) == [Note(p), Note(-1), Note(q), Note(-1)]
  {
    assert [] + [NoteOn(p)] == [NoteOn(p)];
    assert [NoteOn(p)] + [NoteOff] == [NoteOn(p), NoteOff];
    assert [NoteOn(p), NoteOff] + [NoteOn(q)] == [NoteOn(p), NoteOff, NoteOn(q)];
    assert [NoteOn(p), NoteOff, NoteOn(q)] + [NoteOff] == [NoteOn(p), NoteOff, NoteOn(q), NoteOff];
    TranslateSnoc([], NoteOn(p));
    TranslateSnoc([NoteOn(p)], NoteOff);
    TranslateSnoc([NoteOn(p), NoteOff], NoteOn(q));
    TranslateSnoc([NoteOn(p), NoteOff, NoteOn(q)], NoteOff);
  }

  /** Starting an unmapped id without looping and letting the melody end
      publishes the default melody's notes between the two statuses; a stop
      afterwards finds nothing playing. */
  method PlayOnceScenario() returns (started: StartOutcome, log: seq<Out>, after: Reply)
    ensures started == Answered(Started)
    ensures log == [Status(true), Note(60), Note(-1), Note(64), Note(-1), Note(-1), Status(false)]
    ensures after == NothingPlaying
  {
    var node := new MelodyPlayerNode(map["0" := "default.mid"], f => Demo);
    assert Str(9) == "9";
    started := node.Start(9, false);
    node.Complete();
    DemoOutput();
    log := node.log;
    after := node.Stop(0, 0);
  }

  /** A looping melody stopped just after its first note-on publishes that
      note and then closes the session. */
  method LoopStopScenario() returns (started: StartOutcome, stopped: Reply, log: seq<Out>)
    ensures started == Answered(Started) && stopped == Stopped
    ensures log == [Status(true), Note(60), Note(-1), Status(false)]
  {
    var node := new MelodyPlayerNode(map["0" := "default.mid"], f => Demo);
    started := node.Start(0, true);
    stopped := node.Stop(0, 1);
    log := node.log;
    assert Demo[..1] == [NoteOn(60)];
    TranslateSnoc([], NoteOn(60));
  }

  /** A second start while playing and a second stop in a row are refused. */
  method RefusalScenario() returns (first: StartOutcome, second: StartOutcome, firstStop: Reply, secondStop: Reply)
    ensures first == Answered(Started)
    ensures second == Answered(AlreadyPlaying)
    ensures firstStop == Stopped && secondStop == NothingPlaying
  {
    var node := new MelodyPlayerNode(map["0" := "default.mid"], f => []);
    first := node.Start(0, true);
    second := node.Start(1, false);
    firstStop := node.Stop(3, 0);
    secondStop := node.Stop(0, 0);
  }
}
