# Melody player controller

A Dafny model of the playback controller of the `buzzer` ROS package's
melody player node (`MelodyPlayerNode` in `scripts/melody_player.py`). The
node answers two services: `play_melody` starts a worker thread that plays a
MIDI file, publishing each note-on pitch and a `-1` for each note-off on the
`note` topic and `true`/`false` on `playing_status`; `stop_melody` clears the
playing flag and waits for the worker. At most one worker runs at a time,
guarded by the `playing_event` flag.

The model is in five files:

- `wrappers.dfy`: `Option`.
- `midi.dfy` (module `Midi`): the decoded messages (`NoteOn(pitch)`,
  `NoteOff`, `Other`), the publications (`Status(b)`, `Note(v)`), the
  translation of a run of messages into publications, and the status trace
  of a publication log.
- `melody_map.dfy` (module `MelodyMap`): Python's `str` of an integer id and
  the choice of the melody file with the entry under `"0"` as fallback.
- `worker.dfy` (module `Worker`): what one worker run publishes, as a pure
  function `WorkerOutput(msgs, loop, c)` of the melody, the loop flag and the
  cancellation point `c`, and the lemmas about it.
- `player.dfy` (module `Player`): the node as a class with the flag
  (`playing`), the started worker (`running`) and the publication log
  (`log`); `Start` and `Stop` are the two service handlers, `PlayMidi` and
  `PlayTraversal` are the worker's nested loops, proved to append exactly
  `WorkerOutput`. Three client methods replay concrete runs.

Threads are made sequential. Starting a worker only records it; its
publications are appended to the log when it ends, either on its own
(`Complete`, a non-looping melody played to the end) or when `Stop` has
cleared the flag and joined it. Where the worker first finds the flag
cleared is a parameter, the cancellation point `At(traversal, index)`: the
check before message `index` of traversal `traversal` (the `while` guard
before a traversal counts as the check before its message 0). This keeps a
looping run finite.

Three behaviours of the code are easy to miss:

- A melody that ends with a note-off publishes `-1` twice at the end: once
  for the message and once more before the final `false` (lines 46 and 51).
- An empty melody still publishes `true`, `-1`, `false` (lines 35, 51-52).
- A missing `"0"` entry is not caught at start-up: every start request then
  raises a KeyError, even for an id that has its own entry, because the
  default argument `melody_map["0"]` is evaluated first (line 60).

## Model

| member | source | states |
|---|---|---|
| `Midi.NoteValue` | scripts/melody_player.py:43-46 | a note-on message publishes its pitch and a note-off publishes -1, the all-notes-off value |
| `Midi.Emit` | scripts/melody_player.py:43-46 | forwarding one message publishes exactly one note for a note-on or note-off message and nothing for any other message type |
| `Midi.Translate` | scripts/melody_player.py:38-46 | the publications of forwarding a run of messages in order, never more than there are messages |
| `Midi.TranslateAt` | scripts/melody_player.py:43-46 | the note message at index i publishes its pitch (note-on) or -1 (note-off) at the position equal to the number of note messages before it, so publications keep the melody's order |
| `Midi.TranslateLength` | scripts/melody_player.py:43-46 | one publication per note-on or note-off message and none for any other message type |
| `Midi.TranslateOnlyNotes` | scripts/melody_player.py:43-46 | forwarding messages publishes on the note topic only, never a status |
| `Midi.TranslateAppend` | scripts/melody_player.py:38-46 | forwarding two runs of messages one after the other publishes the two translations one after the other |
| `MelodyMap.Str` | scripts/melody_player.py:60 | the key of an id is its decimal digits, preceded by a minus sign exactly when the id is negative, with no leading zero: it starts with `0` only for id 0, and a negative id's digits never start with `0` |
| `MelodyMap.StrRoundTrip` | scripts/melody_player.py:60 | the key `str(id)` reads back as the same id |
| `MelodyMap.StrInjective` | scripts/melody_player.py:60 | distinct ids have distinct keys |
| `MelodyMap.ChooseFile` | scripts/melody_player.py:60 | the choice fails exactly when `"0"` is not a key, and a chosen file is always a value of the map |
| `MelodyMap.MappedIdOwnEntry` | scripts/melody_player.py:60 | with `"0"` present, an id that is a key gets its own entry (id 0 included) |
| `MelodyMap.UnmappedFallsBack` | scripts/melody_player.py:60 | an id that is not a key gets the same file as id 0, the entry under `"0"` |
| `MelodyMap.MissingDefaultFails` | scripts/melody_player.py:60 | without `"0"`, the choice fails even for an id that is a key |
| `Worker.Played` | scripts/melody_player.py:36-48 | the messages one run forwards, given its cancellation point: a non-looping run forwards a prefix of the melody, and the whole melody when never stopped; a looping run forwards whole traversals then part of one |
| `Worker.WorkerOutput` | scripts/melody_player.py:33-52 | everything one run publishes: the opening status, the forwarded notes, then -1 and the closing status, which is three publications more than the number of note messages forwarded |
| `Worker.WorkerBrackets` | scripts/melody_player.py:35-52 | every run, cancelled or not, publishes `true` first, then only notes, then `-1` and `false` last; its status trace is exactly `[true, false]` |
| `Worker.SessionKeepsAlternation` | scripts/melody_player.py:35-52 | appending a finished run to a log whose statuses alternate true, false, ... keeps them alternating |
| `Worker.PlayOnceInOrder` | scripts/melody_player.py:47-52 | a non-looping run that is not stopped publishes `true`, every note message's value in melody order, then `-1` and `false` |
| `Worker.LoopedLength` | scripts/melody_player.py:37-42 | a looping run stopped at (t, k) forwards t whole traversals and the first k messages of traversal t, and nothing more |
| `Worker.LoopedMessage` | scripts/melody_player.py:37-46 | in a looping run stopped at (t, k), message j of traversal q is forwarded at position q * n + j for every (q, j) before (t, k) |
| `Worker.EmptyMelody` | scripts/melody_player.py:35-52 | an empty melody publishes `true`, `-1`, `false`, looping or not |
| `Worker.StopLaterPlaysMore` | scripts/melody_player.py:37-42 | the messages forwarded before an earlier cancellation point are a prefix of those forwarded before a later one, and so is the published output before its closing pair |
| `Player.MelodyPlayerNode.Valid` | scripts/melody_player.py:54-74 | the node's invariant: the flag is set exactly when a worker is running, and the published statuses alternate true, false, ...; so there are as many closing statuses as opening ones and the last one published says idle |
| `Player.MelodyPlayerNode.constructor` | scripts/melody_player.py:19-20 | a new node is idle, has no worker and has published nothing |
| `Player.MelodyPlayerNode.PlayMidi` | scripts/melody_player.py:33-52 | the worker's nested loops append exactly `WorkerOutput` to the log; the flag is cleared by the worker only when a non-looping traversal ends without finding it cleared |
| `Player.MelodyPlayerNode.PlayTraversal` | scripts/melody_player.py:38-46 | one traversal forwards messages in order until the first check that finds the flag cleared, then publishes `-1` and `false`; otherwise it forwards the whole melody |
| `Player.MelodyPlayerNode.Start` | scripts/melody_player.py:54-67 | while playing: "Already playing", nothing changes, no second worker; otherwise a KeyError with nothing changed when the file choice fails, else the flag is set, one worker for the chosen file and loop flag is recorded, and the reply is "Started" |
| `Player.MelodyPlayerNode.Stop` | scripts/melody_player.py:69-74 | while playing: the flag is cleared, the worker's whole output up to the cancellation point is appended, and the reply is "Stopped"; while idle: "Nothing was playing" and nothing changes; either way the node is idle afterwards, so a second stop always fails |
| `Player.MelodyPlayerNode.Complete` | scripts/melody_player.py:47-52 | a non-looping worker that reaches the end appends its uncancelled output and leaves the flag cleared |
| `Player.PlayOnceScenario` | scripts/melody_player.py:33-74 | starting unmapped id 9 with `"0"` mapped to a note 60, off, note 64, off melody publishes `true, 60, -1, 64, -1, -1, false`; the start reports "Started" and a later stop reports "Nothing was playing" |
| `Player.LoopStopScenario` | scripts/melody_player.py:37-42 | a looping start reports "Started"; stopped right after the first note-on, it reports "Stopped" and the run publishes `true, 60, -1, false` |
| `Player.RefusalScenario` | scripts/melody_player.py:54-74 | a first start gets "Started"; a second start while playing gets "Already playing"; a stop then succeeds and a second stop gets "Nothing was playing" |

## Left out

- ROS plumbing: the publishers, the service registration, the heartbeat
  timer and `heartbeater`, reading `/melody/melody_map` with `rospy.get_param`
  and the warning when it is empty, `rospy.is_shutdown` in the worker's loop
  guard, and `main`. The map is a constructor argument and the topics are one
  publication log.
- `rospkg` package-path resolution and `os.path.join`: a file is identified
  by its name in the map; exceptions they may raise are not modelled.
- MIDI decoding and real-time pacing by `mido`: the node is given a function
  from file name to the sequence of decoded messages. A decoding failure,
  which would kill the worker before it publishes `true` and leave the flag
  set, is not modelled.
- Threads: start and join are sequential, and a worker's publications appear
  in the log when it ends, not interleaved with later replies. The race in
  which a non-looping worker clears the flag (line 48) and a new start
  begins a second worker before the first has published its final `-1` and
  `false` is not modelled.
- A looping melody that is never stopped runs forever; `WorkerOutput`,
  `Played` and `PlayMidi` require a cancellation point when looping.
- The type of `melody_id` in the `PlayMelody` service is taken to be an
  integer; the service definition is not part of this model. For a string
  id, `str` would be the identity and the fallback lemmas hold unchanged.
- The `Int8` range of the `note` topic: pitches 0-127 and -1 fit.
