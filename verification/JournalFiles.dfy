/** Journal files as byte sequences, the reader over them, and the record-level
    view of a file that the event protocol is stated on.
 */
module JournalFiles {
  import opened AuthTypes
  import opened Journal

  // ---------------------------------------------------------------------
  // Reading a file
  // ---------------------------------------------------------------------

  /** The part of a file made of whole records. */
  function WholeRecords(bytes: seq<byte>): (r: seq<byte>)
    ensures |r| % RECORD_SIZE == 0 && |r| <= |bytes| < |r| + RECORD_SIZE
  {
    bytes[..|bytes| - |bytes| % RECORD_SIZE]
  }

  function Block(bytes: seq<byte>, i: nat): (r: seq<byte>)
    requires RECORD_SIZE * i + RECORD_SIZE <= |bytes|
    ensures |r| == RECORD_SIZE
  {
    bytes[RECORD_SIZE * i..RECORD_SIZE * i + RECORD_SIZE]
  }

  /** Records from number `i` on: what decodes, and the error that stopped it. */
  function ReadFrom(env: Foreign, bytes: seq<byte>, i: nat): (seq<Event>, Option<JournalError>)
    requires |bytes| % RECORD_SIZE == 0 && RECORD_SIZE * i <= |bytes|
    decreases |bytes| - RECORD_SIZE * i
  {
    if RECORD_SIZE * i == |bytes| then ([], None)
    else match Decode(env, Block(bytes, i))
      case Err(err) => ([], Some(err))
      case Ok(e) => var (rest, err) := ReadFrom(env, bytes, i + 1); ([e] + rest, err)
  }

  function ReadAll(env: Foreign, bytes: seq<byte>): (seq<Event>, Option<JournalError>) {
    ReadFrom(env, WholeRecords(bytes), 0)
  }

  predicate Recordable(env: Foreign, e: Event) {
    Representable(e) && ValidEvent(env, e)
  }

  ghost predicate AllRecordable(env: Foreign, es: seq<Event>) {
    forall i :: 0 <= i < |es| ==> Recordable(env, es[i])
  }

  /** The bytes of a sequence of appends. */
  function EncodeAll(env: Foreign, es: seq<Event>): (r: seq<byte>)
    requires AllRecordable(env, es)
    ensures |r| == RECORD_SIZE * |es|
  {
    if es == [] then [] else EncodeAll(env, es[..|es| - 1]) + Record(env, es[|es| - 1])
  }

  function DurableAll(es: seq<Event>): seq<Event> {
    seq(|es|, i requires 0 <= i < |es| => Durable(es[i]))
  }

  lemma {:induction false} BlockOfEncoded(env: Foreign, es: seq<Event>, rest: seq<byte>, i: nat)
    requires AllRecordable(env, es) && i < |es|
    ensures Block(EncodeAll(env, es) + rest, i) == Record(env, es[i])
  {
    var init, last := es[..|es| - 1], es[|es| - 1];
    assert EncodeAll(env, es) + rest == EncodeAll(env, init) + (Record(env, last) + rest);
    if i < |es| - 1 {
      BlockOfEncoded(env, init, Record(env, last) + rest, i);
    }
  }

  lemma DecodesTo(env: Foreign, es: seq<Event>, rest: seq<byte>, i: nat)
    requires AllRecordable(env, es) && i < |es|
    ensures Decode(env, Block(EncodeAll(env, es) + rest, i)) == Ok(Durable(es[i]))
  {
    BlockOfEncoded(env, es, rest, i);
    RecordRoundTrip(env, es[i]);
  }

  lemma DurableAllFrom(es: seq<Event>, i: nat)
    requires i < |es|
    ensures DurableAll(es[i..]) == [Durable(es[i])] + DurableAll(es[i + 1..])
  {
  }

  /** Well-formed records read back in order; what follows them decides how the
      read ends. */
  lemma {:induction false} ReadFromEncoded(env: Foreign, es: seq<Event>, rest: seq<byte>, i: nat)
    requires AllRecordable(env, es) && i <= |es|
    requires |rest| % RECORD_SIZE == 0
    requires rest != [] ==> Decode(env, rest[..RECORD_SIZE]).Err?
    ensures var (read, err) := ReadFrom(env, EncodeAll(env, es) + rest, i);
            && read == DurableAll(es[i..])
            && (err.None? <==> rest == [])
    decreases |es| - i
  {
    var bytes := EncodeAll(env, es) + rest;
    if i < |es| {
      DecodesTo(env, es, rest, i);
      ReadFromEncoded(env, es, rest, i + 1);
      DurableAllFrom(es, i);
    } else if rest != [] {
      assert Block(bytes, i) == rest[..RECORD_SIZE];
    }
  }

  /** For every list of valid events and every strict prefix of one further
      record, opening the file and reading to the end returns exactly that list
      (ring numbers zeroed), and opening leaves the complete records alone. */
  lemma TornTailIsDiscarded(env: Foreign, es: seq<Event>, next: Event, k: nat)
    requires AllRecordable(env, es) && Representable(next) && k < RECORD_SIZE
    ensures var bytes := EncodeAll(env, es) + Record(env, next)[..k];
            && WholeRecords(bytes) == EncodeAll(env, es)
            && ReadAll(env, bytes) == (DurableAll(es), None)
  {
    var bytes := EncodeAll(env, es) + Record(env, next)[..k];
    assert WholeRecords(bytes) == EncodeAll(env, es);
    assert EncodeAll(env, es) + [] == EncodeAll(env, es);
    ReadFromEncoded(env, es, [], 0);
    assert es[0..] == es;
  }

  // ---------------------------------------------------------------------
  // Record-level view of a file
  // ---------------------------------------------------------------------

  /** `records` is what a reader will return; `tail` counts the bytes after
      them, which begin with a torn append if there are any; `lost` lists the
      appends that landed after the tear and can no longer be read. */
  datatype File = File(records: seq<Event>, lost: seq<Event>, tail: nat)

  const EMPTY_FILE: File := File([], [], 0)

  function FileSize(f: File): nat {
    RECORD_SIZE * |f.records| + f.tail
  }

  function FileAppend(f: File, e: Event): File {
    if f.tail == 0 then f.(records := f.records + [e])
    else f.(lost := f.lost + [e], tail := f.tail + RECORD_SIZE)
  }

  function FileAppendPart(f: File, k: nat): File {
    f.(tail := f.tail + k)
  }

  /** What opening a file for reading leaves of it. */
  function FileOpened(f: File): File {
    f.(tail := f.tail - f.tail % RECORD_SIZE)
  }

  /** The bytes hold the records of `f`, and if whole blocks follow them the
      first of those does not decode. */
  ghost predicate Represents(env: Foreign, bytes: seq<byte>, f: File) {
    && AllRecordable(env, f.records)
    && (forall e :: e in f.records ==> e.seqNo == 0)
    && |bytes| == FileSize(f)
    && bytes[..RECORD_SIZE * |f.records|] == EncodeAll(env, f.records)
    && (f.tail >= RECORD_SIZE ==> Decode(env, Block(bytes, |f.records|)).Err?)
  }

  /** Appending keeps the view, provided the checksum detects the tear: the
      first block after it must not happen to decode. */
  lemma AppendRepresents(env: Foreign, bytes: seq<byte>, f: File, e: Event)
    requires Represents(env, bytes, f) && Recordable(env, e) && e.seqNo == 0
    requires 0 < f.tail < RECORD_SIZE ==> Decode(env, Block(bytes + Record(env, e), |f.records|)).Err?
    ensures Represents(env, bytes + Record(env, e), FileAppend(f, e))
  {
    var n := |f.records|;
    var bytes' := bytes + Record(env, e);
    assert bytes'[..RECORD_SIZE * n] == bytes[..RECORD_SIZE * n];
    if f.tail == 0 {
      assert (f.records + [e])[..n] == f.records;
      assert bytes == bytes[..RECORD_SIZE * n];
    } else if f.tail >= RECORD_SIZE {
      assert Block(bytes', n) == Block(bytes, n);
    }
  }

  lemma AppendPartRepresents(env: Foreign, bytes: seq<byte>, f: File, part: seq<byte>)
    requires Represents(env, bytes, f)
    requires f.tail < RECORD_SIZE <= f.tail + |part| ==> Decode(env, Block(bytes + part, |f.records|)).Err?
    ensures Represents(env, bytes + part, FileAppendPart(f, |part|))
  {
    assert (bytes + part)[..RECORD_SIZE * |f.records|] == bytes[..RECORD_SIZE * |f.records|];
    if f.tail >= RECORD_SIZE {
      assert Block(bytes + part, |f.records|) == Block(bytes, |f.records|);
    }
  }

  lemma OpenRepresents(env: Foreign, bytes: seq<byte>, f: File)
    requires Represents(env, bytes, f)
    ensures Represents(env, WholeRecords(bytes), FileOpened(f))
  {
    var n := |f.records|;
    assert |bytes| % RECORD_SIZE == f.tail % RECORD_SIZE;
    var whole := WholeRecords(bytes);
    assert whole[..RECORD_SIZE * n] == bytes[..RECORD_SIZE * n];
    if f.tail >= RECORD_SIZE {
      assert f.tail - f.tail % RECORD_SIZE >= RECORD_SIZE;
      assert |whole| == RECORD_SIZE * n + (f.tail - f.tail % RECORD_SIZE);
      assert Block(whole, n) == Block(bytes, n);
    }
  }

  /** Reading a represented file returns its records, and then the end of the
      batch or a corruption error according to what follows them. */
  lemma ReadRepresents(env: Foreign, bytes: seq<byte>, f: File)
    requires Represents(env, bytes, f)
    ensures ReadAll(env, bytes).0 == f.records
    ensures ReadAll(env, bytes).1.None? <==> f.tail < RECORD_SIZE
  {
    OpenRepresents(env, bytes, f);
    ReadWhole(env, WholeRecords(bytes), FileOpened(f));
  }

  lemma ReadWhole(env: Foreign, whole: seq<byte>, f: File)
    requires Represents(env, whole, f) && f.tail % RECORD_SIZE == 0 && |whole| % RECORD_SIZE == 0
    ensures ReadFrom(env, whole, 0).0 == f.records
    ensures ReadFrom(env, whole, 0).1.None? <==> f.tail == 0
  {
    WholeSplits(env, whole, f);
    var rest := whole[RECORD_SIZE * |f.records|..];
    ReadFromEncoded(env, f.records, rest, 0);
    assert f.records[0..] == f.records;
    DurableIsSame(f.records);
  }

  /** Whole records split into the readable ones and undecodable blocks. */
  lemma WholeSplits(env: Foreign, whole: seq<byte>, f: File)
    requires Represents(env, whole, f) && f.tail % RECORD_SIZE == 0
    ensures var rest := whole[RECORD_SIZE * |f.records|..];
            && whole == EncodeAll(env, f.records) + rest && |rest| % RECORD_SIZE == 0 && |rest| == f.tail
            && (rest != [] ==> Decode(env, rest[..RECORD_SIZE]).Err?)
  {
    var n := |f.records|;
    var rest := whole[RECORD_SIZE * n..];
    assert whole == whole[..RECORD_SIZE * n] + rest;
    if rest != [] {
      assert rest[..RECORD_SIZE] == Block(whole, n);
    }
  }

  lemma DurableIsSame(es: seq<Event>)
    requires forall e :: e in es ==> e.seqNo == 0
    ensures DurableAll(es) == es
  {
    assert forall i :: 0 <= i < |es| ==> es[i] in es;
  }

  // ---------------------------------------------------------------------
  // The journal directory and its reader
  // ---------------------------------------------------------------------

  class JournalFile {
    var bytes: seq<byte>

    constructor ()
      ensures bytes == []
    {
      bytes := [];
    }
  }

  class JournalReader {
    const inner: JournalFile
    var completeRecords: nat
    var readRecords: nat

    ghost predicate Valid()
      reads this, inner
    {
      |inner.bytes| == RECORD_SIZE * completeRecords && readRecords <= completeRecords
    }

    /** `JournalReader::open`: truncates a torn tail in place. */
    constructor Open(file: JournalFile)
      modifies file
      ensures Valid() && inner == file && readRecords == 0
      ensures file.bytes == WholeRecords(old(file.bytes))
    {
      var len := |file.bytes|;
      var completeLen := len - len % RECORD_SIZE;
      inner := file;
      completeRecords := completeLen / RECORD_SIZE;
      readRecords := 0;
      new;
      if completeLen != len {
        file.bytes := file.bytes[..completeLen];
      }
    }

    /** `next_event`: the next record, or `None` at the end of the batch. */
    method NextEvent(env: Foreign) returns (r: Result<Option<Event>>)
      requires Valid()
      modifies this`readRecords
      ensures Valid()
      ensures old(readRecords) == completeRecords ==>
                r == Ok(None) && readRecords == old(readRecords)
      ensures old(readRecords) < completeRecords ==>
                && readRecords == old(readRecords) + 1
                && r == match Decode(env, Block(inner.bytes, old(readRecords)))
                        case Ok(e) => Ok(Some(e))
                        case Err(err) => Err(err)
    {
      if readRecords == completeRecords {
        return Ok(None);
      }
      var bytes := inner.bytes[readRecords * RECORD_SIZE..(readRecords + 1) * RECORD_SIZE];
      readRecords := readRecords + 1;
      var decoded := Decode(env, bytes);
      match decoded
      case Ok(e) => r := Ok(Some(e));
      case Err(err) => r := Err(err);
    }
  }

  /** The read loop of the worker and of `verify_pending`, run to its end. */
  method ReadToEnd(env: Foreign, file: JournalFile)
      returns (events: seq<Event>, error: Option<JournalError>)
    modifies file
    ensures file.bytes == WholeRecords(old(file.bytes))
    ensures (events, error) == ReadAll(env, old(file.bytes))
  {
    var reader := new JournalReader.Open(file);
    events, error := [], None;
    ghost var bytes, all := file.bytes, ReadAll(env, old(file.bytes));
    ghost var rest := all.0;
    assert events + rest == all.0;
    while reader.readRecords < reader.completeRecords
      invariant reader.Valid() && reader.inner == file
      invariant file.bytes == bytes && error == None
      invariant ReadFrom(env, bytes, reader.readRecords) == (rest, all.1)
      invariant all.0 == events + rest
      decreases reader.completeRecords - reader.readRecords
    {
      ReadFromStep(env, bytes, reader.readRecords);
      var r := reader.NextEvent(env);
      if r.Err? {
        error := Some(r.error);
        assert events + [] == events;
        return;
      }
      assert events + rest == (events + [rest[0]]) + rest[1..];
      events := events + [r.value.value];
      rest := rest[1..];
    }
    assert events + [] == events;
  }

  lemma ReadFromStep(env: Foreign, bytes: seq<byte>, i: nat)
    requires |bytes| % RECORD_SIZE == 0 && RECORD_SIZE * i < |bytes|
    ensures var (read, err) := ReadFrom(env, bytes, i);
            match Decode(env, Block(bytes, i))
            case Err(error) => read == [] && err == Some(error)
            case Ok(e) => read != [] && read[0] == e && ReadFrom(env, bytes, i + 1) == (read[1..], err)
  {
  }

  /** The two files a batch moves through; a missing file is `None`. */
  class JournalDir {
    var active: Option<seq<byte>>
    var processing: Option<seq<byte>>

    constructor ()
      ensures active == None && processing == None
    {
      active, processing := None, None;
    }

    /** `append`: `reached` bytes of the record get into the file, and the sync
        succeeds or not; only a complete, synced record is reported durable. */
    method Append(env: Foreign, e: Event, reached: nat, synced: bool) returns (ok: bool)
      requires Representable(e) && reached <= RECORD_SIZE
      modifies this`active
      ensures active == Some((if old(active).Some? then old(active).value else [])
                             + Record(env, e)[..reached])
      ensures ok <==> reached == RECORD_SIZE && synced
    {
      var file := if active.Some? then active.value else [];
      var record := Encode(env, e);
      active := Some(file + record[..reached]);
      ok := reached == RECORD_SIZE && synced;
    }

    /** `rotate`: an existing batch is returned unchanged; otherwise a non-empty
        active file becomes the batch. */
    method Rotate() returns (found: bool)
      modifies this
      ensures found <==> processing.Some?
      ensures old(processing).Some? ==> processing == old(processing) && active == old(active)
      ensures old(processing).None? ==>
                if old(active).Some? && old(active).value != []
                then processing == old(active) && active == None
                else processing == None && active == old(active)
    {
      if processing.Some? {
        return true;
      }
      if active.Some? && |active.value| > 0 {
        processing := active;
        active := None;
        return true;
      }
      return false;
    }

    method RemoveProcessing()
      modifies this`processing
      ensures processing == None
    {
      processing := None;
    }
  }
}
