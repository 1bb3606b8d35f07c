/** One write of a snapshot or metadata file, system call by system call: a temporary file
    is filled, flushed and renamed onto its target, then the directory is flushed. */
module AtomicFile {
  import opened Prelude

  /** `payload` is what the file is meant to hold, `bytes` what it holds; a loss of power
      spares only the bytes of a flushed file. */
  datatype File = File(payload: seq<byte>, bytes: seq<byte>, flushed: bool)

  /** The files, by number, that the directory binds the target and its temporary name to. */
  datatype Names = Names(target: Option<nat>, temp: Option<nat>)

  datatype Writer = Resting | Filling | Flushed | Renamed

  /** `possible` are the bindings a loss of power may bring back: all there were since the
      directory was flushed. `settled` is the target's file when that last happened. */
  datatype Volume = Volume(files: seq<File>, names: Names, possible: set<Names>, writer: Writer, settled: Option<nat>)

  datatype Event =
    | OpenTemp(payload: seq<byte>)
    | WriteSome(count: nat)
    | FlushFile
    | Rename
    | FlushDirectory
    | Stop
    | PowerLoss(back: Names, garbage: seq<seq<byte>>)

  const EMPTY_VOLUME := Volume([], Names(None, None), {Names(None, None)}, Resting, None)

  // ----- The steps -----

  function Bound(v: Volume, names: Names): Volume {
    v.(names := names, possible := v.possible + {names})
  }

  /** Creates the temporary file, or truncates the one an earlier write left. */
  function Opened(v: Volume, payload: seq<byte>): Volume {
    var file := File(payload, [], false);
    if v.names.temp.Some? && v.names.temp.value < |v.files| then
      v.(files := v.files[v.names.temp.value := file], writer := Filling)
    else Bound(v.(files := v.files + [file], writer := Filling), v.names.(temp := Some(|v.files|)))
  }

  function AfterLoss(file: File, garbage: seq<byte>): File {
    if file.flushed then file else File(file.payload, garbage, true)
  }

  function Lost(v: Volume, back: Names, garbage: seq<seq<byte>>): Volume
    requires |garbage| == |v.files|
  {
    var files := seq(|v.files|, i requires 0 <= i < |v.files| => AfterLoss(v.files[i], garbage[i]));
    Volume(files, back, {back}, Resting, v.settled)
  }

  /** A write may stop after any of its steps, by an error or with its process. */
  function Step(v: Volume, e: Event): Option<Volume> {
    var temp := if v.names.temp.Some? && v.names.temp.value < |v.files| then v.names.temp else None;
    match e
    case OpenTemp(payload) => if v.writer.Resting? then Some(Opened(v, payload)) else None
    case WriteSome(count) =>
      if !v.writer.Filling? || temp.None? then None else
      var file := v.files[temp.value];
      if count > |file.payload| - |file.bytes| then None
      else Some(v.(files := v.files[temp.value := file.(bytes := file.payload[..|file.bytes| + count])]))
    case FlushFile =>
      if !v.writer.Filling? || temp.None? then None else
      var file := v.files[temp.value];
      if |file.bytes| != |file.payload| then None
      else Some(v.(files := v.files[temp.value := file.(flushed := true)], writer := Flushed))
    case Rename => if v.writer.Flushed? then Some(Bound(v.(writer := Renamed), Names(v.names.temp, None))) else None
    case FlushDirectory =>
      if v.writer.Renamed? then Some(v.(possible := {v.names}, writer := Resting, settled := v.names.target)) else None
    case Stop => Some(v.(writer := Resting))
    case PowerLoss(back, garbage) =>
      if back in v.possible && |garbage| == |v.files| then Some(Lost(v, back, garbage)) else None
  }

  function Run(v: Volume, es: seq<Event>): Option<Volume> {
    if es == [] then Some(v) else
    var before := Run(v, es[..|es| - 1]);
    if before.None? then None else Step(before.value, es[|es| - 1])
  }

  // ----- The invariant -----

  /** Files are numbered in the order they are created. */
  function Rank(file: Option<nat>): nat {
    match file case None => 0 case Some(i) => i + 1
  }

  ghost predicate Whole(v: Volume, file: Option<nat>) {
    file.Some? ==>
      file.value < |v.files| && v.files[file.value].flushed && v.files[file.value].bytes == v.files[file.value].payload
  }

  /** The target is whole and no older than the last write that returned; the temporary
      file is younger than any target. */
  ghost predicate NamesHold(v: Volume, names: Names) {
    Whole(v, names.target) && Rank(v.settled) <= Rank(names.target) <= Rank(v.names.target)
    && (names.temp.Some? ==> names.temp.value < |v.files| && Rank(names.target) < Rank(names.temp))
  }

  ghost predicate WriterHolds(v: Volume) {
    match v.writer
    case Resting => true
    case Filling =>
      v.names.temp.Some? && v.names.temp.value < |v.files|
      && var file := v.files[v.names.temp.value]; file.bytes <= file.payload && !file.flushed
    case Flushed => v.names.temp.Some? && Whole(v, v.names.temp)
    case Renamed => v.names.temp.None? && v.names.target.Some?
  }

  ghost predicate Inv(v: Volume) {
    v.names in v.possible && (forall names :: names in v.possible ==> NamesHold(v, names)) && WriterHolds(v)
  }

  lemma StepKeepsInv(v: Volume, e: Event)
    requires Inv(v) && Step(v, e).Some?
    ensures Inv(Step(v, e).value)
  {
    var after := Step(v, e).value;
    assert NamesHold(v, v.names);
    forall names | names in after.possible ensures NamesHold(after, names) {
      if names in v.possible {
        assert NamesHold(v, names);
      }
    }
  }

  lemma {:induction false} RunKeepsInv(v: Volume, es: seq<Event>)
    requires Inv(v) && Run(v, es).Some?
    ensures Inv(Run(v, es).value)
  {
    hide Inv, Step;
    if es != [] {
      RunKeepsInv(v, es[..|es| - 1]);
      StepKeepsInv(Run(v, es[..|es| - 1]).value, es[|es| - 1]);
    }
  }

  lemma EmptyHolds()
    ensures Inv(EMPTY_VOLUME)
  {
  }

  // ----- What a reader finds -----

  /** The target's bytes under given names; nothing when there is no target. */
  function Shown(v: Volume, names: Names): Option<seq<byte>> {
    if names.target.Some? && names.target.value < |v.files| then Some(v.files[names.target.value].bytes) else None
  }

  ghost predicate Attempted(es: seq<Event>, payload: seq<byte>) {
    exists i :: 0 <= i < |es| && es[i] == OpenTemp(payload)
  }

  /** Every payload comes from a write of the run. */
  lemma {:induction false} PayloadsAreAttempted(es: seq<Event>, i: nat)
    requires Run(EMPTY_VOLUME, es).Some? && i < |Run(EMPTY_VOLUME, es).value.files|
    ensures Attempted(es, Run(EMPTY_VOLUME, es).value.files[i].payload)
  {
    var last := es[|es| - 1];
    var earlier := es[..|es| - 1];
    var before, after := Run(EMPTY_VOLUME, earlier).value, Run(EMPTY_VOLUME, es).value;
    if i < |before.files| && after.files[i].payload == before.files[i].payload {
      PayloadsAreAttempted(earlier, i);
      var k :| 0 <= k < |earlier| && earlier[k] == OpenTemp(after.files[i].payload);
      assert es[k] == OpenTemp(after.files[i].payload);
    } else {
      assert last == OpenTemp(after.files[i].payload);
    }
  }

  /** Wherever a run of writes is cut, the target is absent or holds one write's bytes
      whole, and so it is under any names a loss of power brings back. */
  lemma TargetIsWhole(es: seq<Event>, names: Names)
    requires Run(EMPTY_VOLUME, es).Some? && names in Run(EMPTY_VOLUME, es).value.possible
    ensures var v := Run(EMPTY_VOLUME, es).value;
            (Shown(v, names).Some? ==> Attempted(es, Shown(v, names).value))
            && (v.settled.Some? ==> Shown(v, names).Some?)
  {
    hide Attempted, Step, WriterHolds;
    EmptyHolds();
    RunKeepsInv(EMPTY_VOLUME, es);
    var v := Run(EMPTY_VOLUME, es).value;
    assert NamesHold(v, names);
    if names.target.Some? {
      PayloadsAreAttempted(es, names.target.value);
    }
  }

  /** Short of a loss of power only the rename shows, and it shows the whole payload: to
      its readers a write is one step. */
  lemma OnlyRenameShows(v: Volume, e: Event)
    requires Inv(v) && Step(v, e).Some? && !e.PowerLoss?
    ensures var after := Step(v, e).value;
            Shown(after, after.names) ==
              if e.Rename? then Some(v.files[v.names.temp.value].payload) else Shown(v, v.names)
  {
    assert NamesHold(v, v.names);
  }

  /** All bindings a loss of power may bring back show these bytes, flushed. */
  ghost predicate Settled(v: Volume, bytes: seq<byte>) {
    forall names :: names in v.possible ==>
      names.target.Some? && names.target.value < |v.files| && v.files[names.target.value] == File(bytes, bytes, true)
  }

  lemma StepStaysSettled(v: Volume, e: Event, bytes: seq<byte>)
    requires Inv(v) && Settled(v, bytes) && Step(v, e).Some? && !e.Rename?
    ensures Settled(Step(v, e).value, bytes)
  {
    var after := Step(v, e).value;
    assert NamesHold(v, v.names);
    forall names | names in after.possible ensures names.target.Some? && names.target.value < |after.files|
        && after.files[names.target.value] == File(bytes, bytes, true) {
      if names in v.possible {
        assert NamesHold(v, names);
      }
    }
  }

  lemma FlushSettles(v: Volume)
    requires Inv(v) && v.writer.Renamed?
    ensures Run(v, [FlushDirectory]) == Step(v, FlushDirectory) && Shown(v, v.names).Some?
    ensures var after := Step(v, FlushDirectory).value;
            Settled(after, Shown(v, v.names).value) && Shown(after, after.names) == Shown(v, v.names)
  {
    assert [FlushDirectory][..0] == [];
    assert NamesHold(v, v.names);
  }

  lemma SettledShows(v: Volume, bytes: seq<byte>)
    requires Inv(v) && Settled(v, bytes)
    ensures Shown(v, v.names) == Some(bytes)
  {
  }

  /** A write that returned is there until the next rename, whatever fails meanwhile:
      stopped writes, crashes and losses of power. */
  lemma {:induction false} ReturnedWriteSurvives(v: Volume, es: seq<Event>)
    requires Inv(v) && v.writer.Renamed? && Run(v, [FlushDirectory] + es).Some?
    requires forall i :: 0 <= i < |es| ==> !es[i].Rename?
    ensures var after := Run(v, [FlushDirectory] + es).value;
            Inv(after) && Settled(after, Shown(v, v.names).value) && Shown(after, after.names) == Shown(v, v.names)
  {
    hide Settled, Step, NamesHold;
    var all := [FlushDirectory] + es;
    RunKeepsInv(v, all);
    FlushSettles(v);
    if es == [] {
      assert all == [FlushDirectory];
    } else {
      var earlier := es[..|es| - 1];
      assert all[..|all| - 1] == [FlushDirectory] + earlier;
      ReturnedWriteSurvives(v, earlier);
      StepStaysSettled(Run(v, [FlushDirectory] + earlier).value, es[|es| - 1], Shown(v, v.names).value);
      SettledShows(Run(v, all).value, Shown(v, v.names).value);
    }
  }
}
