/** The journal as an object over a disk on which every write can be cut. */
module JournalHandle {
  import opened Prelude
  import opened JournalFormat
  import opened JournalStore
  import opened JournalCrash

  /** The journal file and its head. An operation that is not `ok` stopped
      somewhere on the way; a crash at that point leaves the same bytes. */
  class Disk {
    var file: Bytes
    var head: Option<Witness>

    function Contents(): Store
      reads this
    {
      Store(file, head)
    }

    method WriteAll(bytes: Bytes) returns (ok: bool)
      modifies this`file
      ensures old(file) <= file <= old(file) + bytes
      ensures ok ==> file == old(file) + bytes
    {
      var written :| 0 <= written <= |bytes|;
      file := file + bytes[..written];
      ok := written == |bytes|;
    }

    method Sync() returns (ok: bool) {
      ok := *;
    }

    method SetLength(length: nat) returns (ok: bool)
      requires length <= |file|
      modifies this`file
      ensures file == old(file) || file == old(file)[..length]
      ensures ok ==> file == old(file)[..length]
    {
      var done: bool := *;
      if done {
        file := file[..length];
      }
      ok := *;
      ok := ok && done;
    }

    /** Replaces the file by a finished sibling and syncs the directory. */
    method Rename(replacement: Bytes) returns (ok: bool)
      modifies this`file
      ensures file == old(file) || file == replacement
      ensures ok ==> file == replacement
    {
      var done: bool := *;
      if done {
        file := replacement;
      }
      ok := *;
      ok := ok && done;
    }

    /** The head file is replaced by a rename, so it is the old or the new one. */
    method WriteHead(value: Witness) returns (ok: bool)
      modifies this`head
      ensures head == old(head) || head == Some(value)
      ensures ok ==> head == Some(value)
    {
      var done: bool := *;
      if done {
        head := Some(value);
      }
      ok := *;
      ok := ok && done;
    }

    /** Three writes: length, payload, checksum. */
    method WriteFrame(payload: Bytes) returns (ok: bool)
      modifies this`file
      ensures old(file) <= file <= old(file) + Frame(payload)
      ensures ok ==> file == old(file) + Frame(payload)
    {
      hide EncodeLength;
      var length := EncodeLength(|payload|);
      var checksum := Checksum(length, payload);
      assert file + length + payload + checksum == file + Frame(payload);
      ok := WriteAll(length);
      if !ok {
        return;
      }
      ok := WriteAll(payload);
      if !ok {
        return;
      }
      ok := WriteAll(checksum);
    }
  }

  class Journal {
    const disk: Disk
    var hasher: Bytes      // what the running SHA-256 has absorbed
    var frameCount: nat
    var detached: Option<Bytes>   // the file this handle still holds after it was replaced
    ghost var frames: seq<Bytes>

    /** A usable handle: the hasher has absorbed the file and the head agrees. */
    ghost predicate Valid()
      reads this, disk
    {
      && Fits(frames)
      && hasher == Image(frames)
      && frameCount == |frames|
      && detached.None?
      && disk.Contents() == Committed(frames)
    }

    /** The file this handle writes to. */
    function OwnFile(): Bytes
      reads this, disk
    {
      if detached.Some? then detached.value else disk.file
    }

    /** What holds of a handle also after a failure: its hasher stands for frames
        that the file it writes to is at least as long as. */
    ghost predicate Handled()
      reads this, disk
    {
      && Fits(frames) && hasher == Image(frames) && frameCount == |frames|
      && |Image(frames)| <= |OwnFile()| && disk.file != []
    }

    lemma ValidIsHandled()
      requires Valid()
      ensures Handled()
    {
      hide Serialize;
    }

    /** Writes a frame to the own file. */
    method WriteFrame(payload: Bytes) returns (ok: bool)
      modifies this`detached, disk`file
      ensures old(OwnFile()) <= OwnFile() <= old(OwnFile()) + Frame(payload)
      ensures ok ==> OwnFile() == old(OwnFile()) + Frame(payload)
      ensures detached.Some? <==> old(detached.Some?)
      ensures detached.Some? ==> disk.file == old(disk.file)
    {
      if detached.None? {
        ok := disk.WriteFrame(payload);
      } else {
        var written :| 0 <= written <= |Frame(payload)|;
        detached := Some(detached.value + Frame(payload)[..written]);
        ok := written == |Frame(payload)|;
      }
    }

    method WriteFrames(payloads: seq<Bytes>) returns (ok: bool)
      modifies this`detached, disk`file
      ensures Within(old(OwnFile()), OwnFile(), Serialize(payloads))
      ensures ok ==> OwnFile() == old(OwnFile()) + Serialize(payloads)
      ensures detached.Some? <==> old(detached.Some?)
      ensures detached.Some? ==> disk.file == old(disk.file)
    {
      hide Serialize, Frame, Within;
      ghost var start := OwnFile();
      ok := true;
      var i := 0;
      SerializeNone();
      NothingWritten(start, Serialize(payloads));
      while ok && i < |payloads|
        invariant 0 <= i <= |payloads|
        invariant (detached.Some? <==> old(detached.Some?)) && (detached.Some? ==> disk.file == old(disk.file))
        invariant Within(start, OwnFile(), Serialize(payloads))
        invariant ok ==> OwnFile() == start + Serialize(payloads[..i])
      {
        SerializeUpTo(payloads, i);
        ok := WriteFrame(payloads[i]);
        CutWithin(start, Serialize(payloads[..i]), Frame(payloads[i]), Serialize(payloads), OwnFile());
        i := i + 1;
      }
      assert ok ==> payloads[..i] == payloads;
    }

    constructor (disk: Disk, hasher: Bytes, frameCount: nat, ghost frames: seq<Bytes>)
      ensures this.disk == disk && this.hasher == hasher && this.frameCount == frameCount && this.frames == frames && detached.None?
    {
      this.disk := disk;
      this.detached := None;
      this.hasher := hasher;
      this.frameCount := frameCount;
      this.frames := frames;
    }

    /** Opens or creates the journal and repairs an interrupted tail. */
    static method Open(disk: Disk) returns (result: Result<Journal, JournalError>, found: seq<Bytes>)
      modifies disk
      ensures result.Ok? ==>
                && OpenStore(old(disk.Contents())) == Ok(Opened(found, disk.Contents()))
                && fresh(result.value) && result.value.disk == disk
                && result.value.frames == found && result.value.Valid()
      ensures result.Err? && result.error != Io ==>
                && OpenStore(old(disk.Contents())) == Err(result.error)
                && disk.Contents() == Store(WithHeader(old(disk.file)), old(disk.head))
      ensures result == Err(Io) ==> TornOpen(old(disk.Contents()), disk.Contents())
    {
      hide OpenStore, Serialize;
      found := [];
      if |disk.file| == 0 {
        var ok := disk.WriteAll(JOURNAL_MAGIC);
        if ok {
          ok := disk.Sync();
        }
        if !ok {
          return Err(Io), [];
        }
      }
      ghost var headed := disk.Contents();
      assert headed == Store(WithHeader(old(disk.file)), old(disk.head));
      HeaderFirst(old(disk.Contents()));
      var decided := Reconcile(disk.file, disk.head);
      if decided.Err? {
        return Err(decided.error), [];
      }
      OpenRepairs(headed);
      RepairOnlyTruncates(headed);
      var repaired := decided.value.store;
      if disk.head.None? {
        var ok := disk.WriteHead(repaired.head.value);
        if !ok {
          return Err(Io), [];
        }
      }
      assert disk.file[..|repaired.file|] == repaired.file;
      if |repaired.file| < |disk.file| {
        var ok := disk.SetLength(|repaired.file|);
        if ok {
          ok := disk.Sync();
        }
        if !ok {
          return Err(Io), [];
        }
      }
      assert disk.Contents() == repaired;
      found := decided.value.frames;
      var journal := new Journal(disk, repaired.file, |found|, found);
      result := Ok(journal);
    }

    /** Compares the readable part of a file with the head. */
    static method Reconcile(file: Bytes, head: Option<Witness>) returns (result: Result<Opened, JournalError>)
      requires file != []
      ensures result == OpenStore(Store(file, head))
    {
      hide ParseFrom, Serialize;
      var read := ReadFile(file);
      if read.Err? {
        return Err(read.error);
      }
      var frames, length := read.value.frames, read.value.length;
      ghost var tail := ReadableShape(file);
      var current := WitnessOf(file[..length], |frames|);
      match head {
        case None =>
          if length != |file| {
            return Err(Rollback);
          }
          return Ok(Opened(frames, Store(file, Some(current))));
        case Some(expected) =>
          if expected == current {
            return Ok(Opened(frames, Store(file[..length], head)));
          }
          if expected.length > length {
            return Err(Rollback);
          }
          var prefix := file[..expected.length];
          var parsed := ParseFrames(prefix);
          if parsed.Err? {
            return Err(Corrupt(parsed.error));
          }
          if parsed.value.length != expected.length || WitnessOf(prefix, |parsed.value.frames|) != expected {
            return Err(Rollback);
          }
          return Ok(Opened(parsed.value.frames, Store(prefix, head)));
      }
    }

    /** Size bound, header and frames of an existing file. */
    static method ReadFile(file: Bytes) returns (result: Result<Parsed, JournalError>)
      ensures result == ReadFrames(file)
    {
      if |file| > MAX_JOURNAL_BYTES {
        return Err(JournalFull);
      }
      if |file| < |JOURNAL_MAGIC| || file[..|JOURNAL_MAGIC|] != JOURNAL_MAGIC {
        return Err(InvalidHeader);
      }
      var parsed := ParseFrames(file);
      match parsed {
        case Err(cause) => result := Err(Corrupt(cause));
        case Ok(value) => result := Ok(value);
      }
    }

    /** Reads without creating or repairing: a missing head is a rollback. */
    static method Read(disk: Disk) returns (result: Result<seq<Bytes>, JournalError>)
      ensures result == ReadStore(disk.Contents())
    {
      hide Parse, Serialize;
      var read := ReadFile(disk.file);
      if read.Err? {
        return Err(read.error);
      }
      ghost var tail := ReadableShape(disk.file);
      if disk.head.None? {
        return Err(Rollback);
      }
      var expected := disk.head.value;
      if expected == WitnessOf(disk.file[..read.value.length], |read.value.frames|) {
        return Ok(read.value.frames);
      }
      if expected.length > |disk.file| {
        return Err(Rollback);
      }
      var prefix := disk.file[..expected.length];
      var parsed := ParseFrames(prefix);
      if parsed.Err? {
        return Err(Corrupt(parsed.error));
      }
      if parsed.value.length == expected.length && WitnessOf(prefix, |parsed.value.frames|) == expected {
        result := Ok(parsed.value.frames);
      } else {
        result := Err(Rollback);
      }
    }

    /** Appends one frame and moves the head. A refusal changes nothing; after an
        I/O error the disk is in a state a cut append leaves. A handle that failed
        before appends to the file it holds and hashes what it stands for. */
    method Append(payload: Bytes) returns (result: Result<(), JournalError>)
      requires Handled()
      modifies this, disk
      ensures Handled()
      ensures result == Err(InvalidPayload) <==> !ValidPayload(payload)
      ensures result == Err(JournalFull) <==>
                ValidPayload(payload) && |old(OwnFile())| + FrameSize(payload) > MAX_JOURNAL_BYTES
      ensures result.Ok? ==> frames == old(frames) + [payload] && HashOf(disk.Contents(), frames) && (old(Valid()) ==> Valid())
      ensures result.Err? ==> result.error in {InvalidPayload, JournalFull, Io} && frames == old(frames)
      ensures result.Err? && result.error != Io ==> disk.Contents() == old(disk.Contents()) && (old(Valid()) ==> Valid())
      ensures result == Err(Io) ==>
                && Fits(old(frames) + [payload])
                && (disk.head == old(disk.head) || HashOf(disk.Contents(), old(frames) + [payload]))
                && (old(Valid()) ==> TornAppend(disk.Contents(), old(frames), [payload]))
    {
      hide Serialize, Frame, Image;
      if |payload| == 0 || |payload| > MAX_FRAME_BYTES {
        return Err(InvalidPayload);
      }
      var length := |OwnFile()|;
      if length + FrameSize(payload) > MAX_JOURNAL_BYTES {
        return Err(JournalFull);
      }
      OneMoreFrame(frames, payload);
      var ok := WriteFrame(payload);
      if ok {
        ok := disk.Sync();
      }
      if !ok {
        return Err(Io);
      }
      var hash := hasher + Frame(payload);
      CountBound(frames);
      assert frameCount < U64_MAX;   // the checked addition cannot fail
      var count := frameCount + 1;
      ok := disk.WriteHead(Witness(length + FrameSize(payload), count, Sha256(hash)));
      if !ok {
        return Err(Io);
      }
      hasher := hash;
      frameCount := count;
      frames := frames + [payload];
      return Ok(());
    }

    /** Appends a group of frames under one head move, all or nothing. */
    method AppendBatch(payloads: seq<Bytes>) returns (result: Result<(), JournalError>)
      requires Handled()
      modifies this, disk
      ensures Handled()
      ensures result == Err(InvalidPayload) <==> !ValidPayloads(payloads)
      ensures result == Err(JournalFull) <==>
                ValidPayloads(payloads) && |old(OwnFile())| + |Serialize(payloads)| > MAX_JOURNAL_BYTES
      ensures result.Ok? ==> frames == old(frames) + payloads && HashOf(disk.Contents(), frames) && (old(Valid()) ==> Valid())
      ensures result.Err? ==> result.error in {InvalidPayload, JournalFull, Io} && frames == old(frames)
      ensures result.Err? && result.error != Io ==> disk.Contents() == old(disk.Contents()) && (old(Valid()) ==> Valid())
      ensures result == Err(Io) ==>
                && Fits(old(frames) + payloads)
                && (disk.head == old(disk.head) || HashOf(disk.Contents(), old(frames) + payloads))
                && (old(Valid()) ==> TornAppend(disk.Contents(), old(frames), payloads))
    {
      hide Serialize, Frame;
      var additional := TotalSize(payloads);
      if additional.None? {
        return Err(InvalidPayload);
      }
      var length := |OwnFile()|;
      if length + additional.value > MAX_JOURNAL_BYTES {
        return Err(JournalFull);
      }
      ImageConcat(frames, payloads);
      var ok := WriteFrames(payloads);
      if ok {
        ok := disk.Sync();
      }
      if !ok {
        return Err(Io);
      }
      CountBound(frames + payloads);
      assert frameCount + |payloads| <= U64_MAX;   // the checked addition cannot fail
      var count := frameCount + |payloads|;
      var hash := HashFrames(hasher, payloads);
      ok := disk.WriteHead(Witness(length + additional.value, count, Sha256(hash)));
      if !ok {
        return Err(Io);
      }
      hasher := hash;
      frameCount := count;
      frames := frames + payloads;
      return Ok(());
    }

    /** Replaces the journal by a sibling holding exactly `payloads`, also through
        a handle whose last operation failed. */
    method Compact(payloads: seq<Bytes>) returns (result: Result<(), JournalError>)
      modifies this, disk
      ensures result == Err(InvalidPayload) <==> !ValidPayloads(payloads)
      ensures result == Err(JournalFull) <==> ValidPayloads(payloads) && !Fits(payloads)
      ensures result.Ok? ==> Valid() && Handled() && frames == payloads
      ensures result.Err? && old(Handled()) ==> Handled()
      ensures result.Err? ==> result.error in {InvalidPayload, JournalFull, Io} && frames == old(frames)
      ensures result.Err? && result.error != Io ==> disk.Contents() == old(disk.Contents()) && (old(Valid()) ==> Valid())
      ensures result == Err(Io) ==> Fits(payloads) && TornRewrite(old(disk.Contents()), disk.Contents(), payloads)
      ensures result == Err(Io) && old(Valid()) ==> TornCompact(disk.Contents(), old(frames), payloads)
    {
      hide Serialize, Frame;
      var size := TotalSize(payloads);
      if size.None? {
        return Err(InvalidPayload);
      }
      if |JOURNAL_MAGIC| + size.value > MAX_JOURNAL_BYTES {
        return Err(JournalFull);
      }
      var written: bool := *;   // the sibling may not get written; the journal is untouched
      if !written {
        return Err(Io);
      }
      var replacement := HashFrames(JOURNAL_MAGIC, payloads);
      var replaced := disk.file;
      var ok := disk.Rename(replacement);
      if detached.None? && disk.file != replaced {
        detached := Some(replaced);   // this handle moves to the new file only at the end
      }
      if !ok {
        return Err(Io);
      }
      ok := disk.WriteHead(Witness(|JOURNAL_MAGIC| + size.value, |payloads|, Sha256(replacement)));
      if !ok {
        return Err(Io);
      }
      detached := None;
      hasher := replacement;
      frameCount := |payloads|;
      frames := payloads;
      return Ok(());
    }

    /** The length of the file this handle holds, if it can be read. */
    method ByteLength() returns (length: Option<nat>)
      ensures Valid() && length.Some? ==> length.value == |disk.file|
    {
      var ok: bool := *;
      if !ok {
        return None;
      }
      length := Some(|OwnFile()|);
    }
  }

  /** The size of a batch, or none if it holds an empty or oversized payload. */
  method TotalSize(payloads: seq<Bytes>) returns (total: Option<nat>)
    ensures total.Some? <==> ValidPayloads(payloads)
    ensures total.Some? ==> total.value == |Serialize(payloads)|
  {
    hide Serialize, Frame;
    var sum := 0;
    var i := 0;
    SerializeNone();
    while i < |payloads|
      invariant 0 <= i <= |payloads|
      invariant ValidPayloads(payloads[..i]) && sum == |Serialize(payloads[..i])|
    {
      if |payloads[i]| == 0 || |payloads[i]| > MAX_FRAME_BYTES {
        return None;
      }
      SerializeUpTo(payloads, i);
      sum := sum + FrameSize(payloads[i]);
      i := i + 1;
    }
    assert payloads[..i] == payloads;
    total := Some(sum);
  }

  /** Feeds a batch to a running hash, frame by frame. */
  method HashFrames(absorbed: Bytes, payloads: seq<Bytes>) returns (hash: Bytes)
    ensures hash == absorbed + Serialize(payloads)
  {
    hide Serialize, Frame;
    hash := absorbed;
    SerializeNone();
    for i := 0 to |payloads|
      invariant hash == absorbed + Serialize(payloads[..i])
    {
      SerializeUpTo(payloads, i);
      Assoc(absorbed, Serialize(payloads[..i]), Frame(payloads[i]));
      hash := hash + Frame(payloads[i]);
    }
    assert payloads[..|payloads|] == payloads;
  }

  /** A file after some part of `bytes` was written to its end. */
  predicate Within(start: Bytes, file: Bytes, bytes: Bytes) {
    start <= file <= start + bytes
  }

  lemma NothingWritten(start: Bytes, bytes: Bytes)
    ensures Within(start, start, bytes) && start == start + []
  {
  }

  lemma CutWithin(start: Bytes, done: Bytes, frame: Bytes, all: Bytes, file: Bytes)
    requires done + frame <= all && start + done <= file <= start + done + frame
    ensures Within(start, file, all) && start + done + frame == start + (done + frame)
  {
    assert start + (done + frame) <= start + all;
    assert start <= start + done;
  }

  lemma OneMoreFrame(frames: seq<Bytes>, payload: Bytes)
    requires ValidPayload(payload)
    ensures Image(frames + [payload]) == Image(frames) + Frame(payload) && |Frame(payload)| == FrameSize(payload)
    ensures ValidPayloads(frames) ==> ValidPayloads(frames + [payload])
  {
    hide Serialize;
    SerializeOne(payload);
    ImageConcat(frames, [payload]);
  }

  lemma SerializeNone()
    ensures forall payloads: seq<Bytes> :: Serialize(payloads[..0]) == []
  {
  }

  /** The bytes of one more frame, inside the bytes of them all. */
  lemma SerializeUpTo(payloads: seq<Bytes>, i: nat)
    requires i < |payloads|
    ensures Serialize(payloads[..i + 1]) == Serialize(payloads[..i]) + Frame(payloads[i])
    ensures Serialize(payloads[..i]) + Frame(payloads[i]) <= Serialize(payloads)
  {
    hide Serialize, Frame;
    SplitAt(payloads, i);
    SerializeBetween(payloads[..i], payloads[i], payloads[i + 1..]);
  }

  lemma SerializeBetween(before: seq<Bytes>, payload: Bytes, after: seq<Bytes>)
    ensures Serialize(before + [payload]) == Serialize(before) + Frame(payload)
    ensures Serialize(before) + Frame(payload) <= Serialize(before + [payload] + after)
  {
    hide Serialize, Frame;
    SerializeOne(payload);
    SerializeConcat(before, [payload]);
    SerializeConcat(before + [payload], after);
    PrefixOfConcat(Serialize(before + [payload]), Serialize(after));
  }

  /** A journal within its size limit has few frames. */
  lemma CountBound(frames: seq<Bytes>)
    requires |Image(frames)| <= MAX_JOURNAL_BYTES
    ensures |frames| <= MAX_JOURNAL_BYTES
  {
    hide Serialize;
    CountSerialized(frames);
  }

  lemma {:induction false} CountSerialized(frames: seq<Bytes>)
    ensures |frames| <= |Serialize(frames)|
  {
    hide Frame;
    if frames != [] {
      CountSerialized(frames[1..]);
    }
  }
}
