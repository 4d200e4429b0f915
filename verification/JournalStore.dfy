/** The append-only journal: a file of frames and a separate head witness. */
module JournalStore {
  import opened Prelude
  import opened JournalFormat

  /** An ideal SHA-256: the digest is the absorbed bytes, so equal digests mean
      equal bytes. */
  datatype Digest = Sha256(absorbed: Bytes)

  datatype Witness = Witness(length: nat, frameCount: nat, digest: Digest)

  datatype JournalError =
    | Io
    | InvalidHeader
    | Corrupt(cause: FormatError)
    | JournalFull
    | Rollback
    | InvalidPayload

  /** What is on disk. A missing journal file is an empty one. */
  datatype Store = Store(file: Bytes, head: Option<Witness>)

  function WitnessOf(bytes: Bytes, frameCount: nat): Witness {
    Witness(|bytes|, frameCount, Sha256(bytes))
  }

  /** The head witness of a journal holding exactly `frames`. */
  function Head(frames: seq<Bytes>): Witness {
    WitnessOf(Image(frames), |frames|)
  }

  /** File and witness agree on `frames`. */
  function Committed(frames: seq<Bytes>): Store {
    Store(Image(frames), Some(Head(frames)))
  }

  predicate Fits(frames: seq<Bytes>) {
    ValidPayloads(frames) && |Image(frames)| <= MAX_JOURNAL_BYTES
  }

  /** Size bound, header, then every complete frame. */
  function ReadFrames(file: Bytes): Result<Parsed, JournalError> {
    if |file| > MAX_JOURNAL_BYTES then Err(JournalFull)
    else if |file| < |JOURNAL_MAGIC| || file[..|JOURNAL_MAGIC|] != JOURNAL_MAGIC then Err(InvalidHeader)
    else match Parse(file)
         case Err(cause) => Err(Corrupt(cause))
         case Ok(parsed) => Ok(parsed)
  }

  /** The frames that `prefix` holds, if it is what the witness committed. */
  function ReadCommitted(prefix: Bytes, expected: Witness): Result<seq<Bytes>, JournalError> {
    match Parse(prefix)
    case Err(cause) => Err(Corrupt(cause))
    case Ok(parsed) =>
      if parsed.length != expected.length || WitnessOf(prefix, |parsed.frames|) != expected then Err(Rollback)
      else Ok(parsed.frames)
  }

  datatype Opened = Opened(frames: seq<Bytes>, store: Store)

  /** The header an empty file is given first. */
  function WithHeader(file: Bytes): Bytes {
    if file == [] then JOURNAL_MAGIC else file
  }

  /** What opening for writing decides: the frames, and the repaired store. */
  function OpenStore(store: Store): Result<Opened, JournalError> {
    var file := WithHeader(store.file);
    match ReadFrames(file)
    case Err(error) => Err(error)
    case Ok(parsed) =>
      if parsed.length > |file| then Err(Rollback) else
      var current := WitnessOf(file[..parsed.length], |parsed.frames|);
      match store.head
      case None =>
        if parsed.length != |file| then Err(Rollback)
        else Ok(Opened(parsed.frames, Store(file, Some(current))))
      case Some(expected) =>
        if expected == current then Ok(Opened(parsed.frames, Store(file[..parsed.length], store.head)))
        else if expected.length > parsed.length then Err(Rollback)
        else match ReadCommitted(file[..expected.length], expected)
             case Err(error) => Err(error)
             case Ok(frames) => Ok(Opened(frames, Store(file[..expected.length], store.head)))
  }

  /** What reading without repair decides. */
  function ReadStore(store: Store): Result<seq<Bytes>, JournalError> {
    match ReadFrames(store.file)
    case Err(error) => Err(error)
    case Ok(parsed) =>
      if parsed.length > |store.file| || store.head.None? then Err(Rollback) else
      var expected := store.head.value;
      if expected == WitnessOf(store.file[..parsed.length], |parsed.frames|) then Ok(parsed.frames)
      else if expected.length > |store.file| then Err(Rollback)
      else ReadCommitted(store.file[..expected.length], expected)
  }

  // ---------- what the outcomes mean ----------

  /** `frames` are what the witness committed, and the file still starts with them. */
  predicate HoldsCommitted(file: Bytes, head: Witness, frames: seq<Bytes>) {
    ValidPayloads(frames) && head == Head(frames) && Image(frames) <= file
  }

  /** A readable file is the image of the frames parsed and an interrupted frame. */
  lemma ReadableShape(file: Bytes) returns (tail: Bytes)
    requires ReadFrames(file).Ok?
    ensures var parsed := ReadFrames(file).value;
            && parsed.length == |Image(parsed.frames)| <= |file|
            && ValidPayloads(parsed.frames)
            && file[..parsed.length] == Image(parsed.frames)
            && file == Image(parsed.frames) + tail
            && IncompleteTail(tail)
  {
    hide ParseFrom, Serialize, IncompleteTail;
    var parsed := ReadFrames(file).value;
    ParsedIsSerialized(file, |JOURNAL_MAGIC|);
    tail := file[parsed.length..];
    assert file[..parsed.length] == file[..|JOURNAL_MAGIC|] + file[|JOURNAL_MAGIC|..parsed.length];
  }

  lemma ParseLength(bytes: Bytes)
    requires Parse(bytes).Ok?
    ensures Parse(bytes).value.length >= |JOURNAL_MAGIC|
  {
    if |JOURNAL_MAGIC| <= |bytes| {
      ParsedIsSerialized(bytes, |JOURNAL_MAGIC|);
    }
  }

  /** A file that starts with an image parses to at least those frames. */
  lemma {:induction false} ParseKeepsPrefix(bytes: Bytes, cursor: nat, frames: seq<Bytes>)
    requires ValidPayloads(frames) && cursor <= |bytes|
    requires Serialize(frames) <= bytes[cursor..] && ParseFrom(bytes, cursor).Ok?
    ensures frames <= ParseFrom(bytes, cursor).value.frames
    ensures cursor + |Serialize(frames)| <= ParseFrom(bytes, cursor).value.length
    decreases |frames|
  {
    hide ParseFrom, Frame;
    ParsedIsSerialized(bytes, cursor);
    if frames != [] {
      var size := FrameSize(frames[0]);
      assert bytes[cursor..cursor + size] == Frame(frames[0]);
      ParseSteps(bytes, cursor, frames[0]);
      assert Serialize(frames)[size..] == Serialize(frames[1..]);
      assert bytes[cursor..][size..] == bytes[cursor + size..];
      ParseKeepsPrefix(bytes, cursor + size, frames[1..]);
    }
  }

  /** An image is a prefix of another exactly when its frames are. */
  lemma ImagePrefix(a: seq<Bytes>, b: seq<Bytes>)
    requires ValidPayloads(a) && ValidPayloads(b)
    ensures Image(a) <= Image(b) <==> a <= b
  {
    hide ParseFrom, Serialize;
    if a <= b {
      assert b == a + b[|a|..];
      ImageConcat(a, b[|a|..]);
    }
    if Image(a) <= Image(b) {
      ParseImage(b);
      assert Image(b)[|JOURNAL_MAGIC|..] == Serialize(b);
      assert Image(a)[|JOURNAL_MAGIC|..] == Serialize(a);
      ParseKeepsPrefix(Image(b), |JOURNAL_MAGIC|, a);
    }
  }

  /** Checking a prefix against a witness succeeds exactly on the committed bytes. */
  lemma ReadCommittedExactly(file: Bytes, expected: Witness)
    requires ReadFrames(file).Ok? && expected.length <= |file|
    ensures forall frames :: HoldsCommitted(file, expected, frames) ==>
              ReadCommitted(file[..expected.length], expected) == Ok(frames)
    ensures ReadCommitted(file[..expected.length], expected).Ok? ==>
              HoldsCommitted(file, expected, ReadCommitted(file[..expected.length], expected).value)
  {
    hide ParseFrom, Serialize, IncompleteTail;
    var prefix := file[..expected.length];
    forall frames | HoldsCommitted(file, expected, frames)
      ensures ReadCommitted(prefix, expected) == Ok(frames)
    {
      ParseImage(frames);
      assert prefix == Image(frames);
    }
    if ReadCommitted(prefix, expected).Ok? {
      var frames := ReadCommitted(prefix, expected).value;
      ParseLength(prefix);
      assert prefix[..|JOURNAL_MAGIC|] == file[..|JOURNAL_MAGIC|];
      var tail := ReadableShape(prefix);
      assert prefix == Image(frames);
    }
  }

  /** With a witness present, opening succeeds exactly when the file is readable
      and still starts with the committed image, whatever else it holds; it
      returns the committed frames and leaves file and witness in agreement. */
  lemma OpenExactly(store: Store, expected: Witness)
    requires store.file != [] && store.head == Some(expected)
    ensures OpenStore(store).Ok? <==>
            ReadFrames(store.file).Ok? && exists frames :: HoldsCommitted(store.file, expected, frames)
    ensures forall frames :: OpenStore(store).Ok? && HoldsCommitted(store.file, expected, frames) ==>
              OpenStore(store) == Ok(Opened(frames, Committed(frames)))
  {
    hide ParseFrom, Serialize, IncompleteTail;
    if ReadFrames(store.file).Ok? {
      var parsed := ReadFrames(store.file).value;
      var tail := ReadableShape(store.file);
      var current := WitnessOf(store.file[..parsed.length], |parsed.frames|);
      forall frames | HoldsCommitted(store.file, expected, frames)
        ensures OpenStore(store) == Ok(Opened(frames, Committed(frames)))
      {
        assert store.file[|JOURNAL_MAGIC|..][..|Serialize(frames)|] == Serialize(frames);
        ParseKeepsPrefix(store.file, |JOURNAL_MAGIC|, frames);
        if expected == current {
          ImageInjective(frames, parsed.frames);
        } else {
          ReadCommittedExactly(store.file, expected);
        }
      }
      if OpenStore(store).Ok? {
        if expected == current {
          assert HoldsCommitted(store.file, expected, parsed.frames);
        } else {
          ReadCommittedExactly(store.file, expected);
        }
      }
    }
  }

  /** Opening and reading agree on every non-empty file with a witness: the same
      frames or the same error. */
  lemma OpenAgreesWithRead(store: Store)
    requires store.file != [] && store.head.Some?
    ensures ReadStore(store) == match OpenStore(store)
                                case Ok(found) => Ok(found.frames)
                                case Err(error) => Err(error)
  {
    hide ParseFrom, Serialize, IncompleteTail;
    var expected := store.head.value;
    if ReadFrames(store.file).Ok? {
      var parsed := ReadFrames(store.file).value;
      var tail := ReadableShape(store.file);
      if parsed.length < expected.length <= |store.file| {
        // Cutting the interrupted frame shorter leaves it interrupted.
        ParseShorterTail(parsed.frames, tail, expected.length - parsed.length);
        assert store.file[..expected.length] == Image(parsed.frames) + tail[..expected.length - parsed.length];
      }
    }
  }

  lemma ParseShorterTail(frames: seq<Bytes>, tail: Bytes, length: nat)
    requires ValidPayloads(frames) && IncompleteTail(tail) && length <= |tail|
    ensures Parse(Image(frames) + tail[..length]) == Ok(Parsed(frames, |Image(frames)|))
  {
    hide ParseFrom, Serialize, DecodeLength;
    var cut := tail[..length];
    if LENGTH_BYTES <= length {
      assert cut[..LENGTH_BYTES] == tail[..LENGTH_BYTES];
    }
    ParseSerialized(JOURNAL_MAGIC, frames, cut);
  }

  /** A store in agreement opens to its frames, unchanged. */
  lemma OpenCommitted(frames: seq<Bytes>)
    requires Fits(frames)
    ensures OpenStore(Committed(frames)) == Ok(Opened(frames, Committed(frames)))
    ensures ReadStore(Committed(frames)) == Ok(frames)
  {
    hide ParseFrom, Serialize;
    ParseImage(frames);
    assert Image(frames)[..|JOURNAL_MAGIC|] == JOURNAL_MAGIC;
    assert Image(frames)[..|Image(frames)|] == Image(frames);
  }

  /** Every successful opening leaves a store in agreement, so that opening again
      gives the same frames and changes nothing more. */
  lemma OpenRepairs(store: Store)
    requires OpenStore(store).Ok?
    ensures var found := OpenStore(store).value;
            && Fits(found.frames)
            && found.store == Committed(found.frames)
            && OpenStore(found.store) == Ok(found)
  {
    hide ParseFrom, Serialize, IncompleteTail;
    var found := OpenStore(store).value;
    var file := WithHeader(store.file);
    var tail := ReadableShape(file);
    if store.head.Some? {
      OpenExactly(Store(file, store.head), store.head.value);
      var frames :| HoldsCommitted(file, store.head.value, frames);
    } else {
      assert file == file[..ReadFrames(file).value.length];
    }
    OpenCommitted(found.frames);
  }

  /** A repair only truncates: it never writes frame bytes, and it writes a head
      only where there was none. */
  lemma RepairOnlyTruncates(store: Store)
    requires OpenStore(store).Ok?
    ensures var repaired := OpenStore(store).value.store;
            && repaired.file <= WithHeader(store.file)
            && (store.head.Some? ==> repaired.head == store.head)
            && (store.head.None? ==> repaired.file == WithHeader(store.file) && repaired.head.Some?)
  {
    hide ReadFrames, ReadCommitted;
  }

  /** Opening an empty file is opening a file with only a header. */
  lemma HeaderFirst(store: Store)
    ensures OpenStore(store) == OpenStore(Store(WithHeader(store.file), store.head))
  {
    hide ReadFrames, ReadCommitted;
  }

  /** Of the parts of a header, exactly the proper, non-empty ones are refused. */
  lemma CutHeaderIsRefused(head: Option<Witness>, length: nat)
    requires length <= |JOURNAL_MAGIC|
    ensures OpenStore(Store(JOURNAL_MAGIC[..length], head)) == Err(InvalidHeader) <==> 0 < length < |JOURNAL_MAGIC|
  {
    hide Parse;
    HeaderFirst(Store([], head));
    if length == |JOURNAL_MAGIC| {
      assert JOURNAL_MAGIC[..length] == JOURNAL_MAGIC;
    }
  }
}
