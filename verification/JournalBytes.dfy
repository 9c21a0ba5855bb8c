/** The pipeline over real bytes: the record-level files of `EventProtocol` are
    what the byte contents of the two journal files say, along every run.
 */
module JournalBytes {
  import opened AuthTypes
  import opened Journal
  import opened JournalFiles
  import opened EventProtocol

  /** The two files; a missing one is `None`. */
  datatype Disk = Disk(active: Option<seq<byte>>, processing: Option<seq<byte>>)

  const EMPTY_DISK: Disk := Disk(None, None)

  function Contents(file: Option<seq<byte>>): seq<byte> {
    if file.Some? then file.value else []
  }

  function Truncated(file: Option<seq<byte>>): Option<seq<byte>> {
    if file.Some? then Some(WholeRecords(file.value)) else None
  }

  /** The bytes an append puts into the file; `torn` is the event of an append
      that fails half way. */
  function Appended(env: Foreign, a: Action, torn: Event): seq<byte>
    requires a.Append? || a.AppendUnsynced? ==> Representable(a.event)
    requires a.AppendPartial? ==> Representable(torn) && a.bytes <= RECORD_SIZE
  {
    match a
    case Append(e) => Record(env, e)
    case AppendUnsynced(e) => Record(env, e)
    case AppendPartial(k, _) => Record(env, torn)[..k]
    case _ => []
  }

  predicate IsAppend(a: Action) {
    a.Append? || a.AppendUnsynced? || a.AppendPartial?
  }

  /** What a step does to the files, seen as bytes. */
  function DiskStep(env: Foreign, d: Disk, a: Action, torn: Event): Disk
    requires a.Append? || a.AppendUnsynced? ==> Representable(a.event)
    requires a.AppendPartial? ==> Representable(torn) && a.bytes <= RECORD_SIZE
  {
    if IsAppend(a) then d.(active := Some(Contents(d.active) + Appended(env, a, torn)))
    else
      match a
      case Rotate => Disk(None, d.active)
      case OpenBatch => d.(processing := Truncated(d.processing))
      case RemoveBatch => d.(processing := None)
      case RecoverRing => Disk(Truncated(d.active), Truncated(d.processing))
      case RecoverRingRefused =>
        Disk(if ReadAll(env, Contents(d.processing)).1.None? then Truncated(d.active) else d.active,
             Truncated(d.processing))
      case _ => d
  }

  /** Events are recordable, and a tear is detected: the first block after the
      readable records of the active file does not happen to decode. */
  predicate Sound(env: Foreign, d: Disk, s: State, a: Action, torn: Event) {
    && (a.Append? || a.AppendUnsynced? ==> Recordable(env, a.event))
    && (a.AppendPartial? ==> Representable(torn) && a.bytes <= RECORD_SIZE)
    && (IsAppend(a) ==>
          var bytes := Contents(d.active) + Appended(env, a, torn);
          s.active.tail < RECORD_SIZE && (s.active.tail > 0 || a.AppendPartial?) && |bytes| >= RECORD_SIZE * |s.active.records| + RECORD_SIZE ==>
            Decode(env, Block(bytes, |s.active.records|)).Err?)
  }

  /** The bytes on disk represent the protocol's files. */
  ghost predicate Backs(env: Foreign, d: Disk, s: State) {
    && Represents(env, Contents(d.active), s.active)
    && (d.processing.Some? <==> s.processing.Some?)
    && (s.processing.Some? ==> Represents(env, d.processing.value, s.processing.value))
  }

  lemma AppendKeepsBacks(env: Foreign, d: Disk, s: State, a: Action, torn: Event)
    requires Backs(env, d, s) && Enabled(s, a) && IsAppend(a) && Sound(env, d, s, a, torn)
    ensures Backs(env, DiskStep(env, d, a, torn), Step(s, a))
  {
    if a.AppendPartial? {
      AppendPartRepresents(env, Contents(d.active), s.active, Appended(env, a, torn));
    } else {
      AppendRepresents(env, Contents(d.active), s.active, a.event);
    }
  }

  lemma OpenKeepsRepresents(env: Foreign, file: Option<seq<byte>>, f: File)
    requires Represents(env, Contents(file), f)
    ensures Represents(env, Contents(Truncated(file)), FileOpened(f))
  {
    OpenRepresents(env, Contents(file), f);
    if file.None? {
      assert WholeRecords([]) == [];
    }
  }

  /** Every step, the truncations and the refused recovery included, does to the
      bytes what it does to the records. */
  lemma StepKeepsBacks(env: Foreign, d: Disk, s: State, a: Action, torn: Event)
    requires Backs(env, d, s) && Enabled(s, a) && Sound(env, d, s, a, torn)
    ensures Backs(env, DiskStep(env, d, a, torn), Step(s, a))
  {
    if IsAppend(a) {
      AppendKeepsBacks(env, d, s, a, torn);
    } else if a.OpenBatch? || a.RecoverRing? || a.RecoverRingRefused? {
      OpenKeepsRepresents(env, d.active, s.active);
      if s.processing.Some? {
        OpenKeepsRepresents(env, d.processing, s.processing.value);
        ReadRepresents(env, d.processing.value, s.processing.value);
      } else {
        EmptyReads(env);
      }
    }
  }

  lemma EmptyReads(env: Foreign)
    ensures ReadAll(env, []) == ([], None) && Represents(env, [], EMPTY_FILE)
  {
    assert WholeRecords([]) == [];
  }

  /** A run over bytes beside a run of the protocol. */
  ghost predicate DiskRun(env: Foreign, d: Disk, s: State, steps: seq<(Action, Event)>, d': Disk, s': State)
    decreases |steps|
  {
    if steps == [] then d == d' && s == s'
    else
      var (a, torn) := steps[0];
      && Enabled(s, a) && Sound(env, d, s, a, torn)
      && DiskRun(env, DiskStep(env, d, a, torn), Step(s, a), steps[1..], d', s')
  }

  lemma {:induction false} DiskRunsKeepBacks(env: Foreign, d: Disk, s: State, steps: seq<(Action, Event)>,
                                             d': Disk, s': State)
    requires Backs(env, d, s) && DiskRun(env, d, s, steps, d', s')
    ensures Backs(env, d', s')
    decreases |steps|
  {
    if steps != [] {
      var (a, torn) := steps[0];
      StepKeepsBacks(env, d, s, a, torn);
      DiskRunsKeepBacks(env, DiskStep(env, d, a, torn), Step(s, a), steps[1..], d', s');
    }
  }

  /** Along every run whose tears are detected, reading a journal file to its end
      returns exactly the records the protocol has there, and an error exactly
      when the protocol says that an undecodable block follows them. */
  lemma {:induction false} BytesFollowEveryRun(env: Foreign, steps: seq<(Action, Event)>, d: Disk, s: State)
    requires DiskRun(env, EMPTY_DISK, INIT, steps, d, s)
    ensures ReadAll(env, Contents(d.active)).0 == s.active.records
    ensures ReadAll(env, Contents(d.active)).1.None? <==> Verifies(Some(s.active))
    ensures ReadAll(env, Contents(d.processing)).0 == Records(s.processing)
    ensures ReadAll(env, Contents(d.processing)).1.None? <==> Verifies(s.processing)
    ensures d.processing.Some? <==> s.processing.Some?
    ensures Contents(d.active) != [] <==> FileSize(s.active) > 0
  {
    EmptyReads(env);
    DiskRunsKeepBacks(env, EMPTY_DISK, INIT, steps, d, s);
    ReadRepresents(env, Contents(d.active), s.active);
    if s.processing.Some? {
      ReadRepresents(env, d.processing.value, s.processing.value);
    }
  }
}
