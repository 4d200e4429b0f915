/** The byte format of the journal: a header, then checksummed frames. */
module JournalFormat {
  import opened Prelude

  const JOURNAL_MAGIC: Bytes := [0x53, 0x55, 0x50, 0x47, 0x4A, 0x4E, 0x4C, 0x31] // SUPGJNL1
  const MAX_FRAME_BYTES := 64 * 1024
  const MAX_JOURNAL_BYTES := 16 * 1024 * 1024
  const CHECKSUM_BYTES := 32
  const LENGTH_BYTES := 4

  /** A hash of which only the output length is known. */
  type Hash32 = f: Bytes -> Bytes | forall x :: |f(x)| == CHECKSUM_BYTES witness (x => seq(CHECKSUM_BYTES, _ => 0))

  /** The frame hash, SHA-256 under the frame domain in the program. It is left
      arbitrary: every statement about the format holds for every such function. */
  const FRAME_HASH: Hash32

  function Checksum(length: Bytes, payload: Bytes): (sum: Bytes)
    ensures |sum| == CHECKSUM_BYTES
  {
    FRAME_HASH(length + payload)
  }

  /** The length prefix of a frame. */
  function EncodeLength(size: nat): (length: Bytes)
    ensures |length| == LENGTH_BYTES
  {
    BigEndian(size, LENGTH_BYTES)
  }

  function DecodeLength(length: Bytes): nat {
    FromBigEndian(length)
  }

  /** A size that fits four bytes and four bytes determine each other. */
  lemma LengthRoundTrip(size: nat, length: Bytes)
    requires size < 0x1_0000_0000 && |length| == LENGTH_BYTES
    ensures DecodeLength(EncodeLength(size)) == size
    ensures EncodeLength(DecodeLength(length)) == length
  {
    Widths();
    BigEndianRoundTrip(size, LENGTH_BYTES);
    FromBigEndianRoundTrip(length);
  }

  predicate ValidPayload(payload: Bytes) {
    1 <= |payload| <= MAX_FRAME_BYTES
  }

  predicate ValidPayloads(payloads: seq<Bytes>) {
    forall i :: 0 <= i < |payloads| ==> ValidPayload(payloads[i])
  }

  function FrameSize(payload: Bytes): nat {
    LENGTH_BYTES + |payload| + CHECKSUM_BYTES
  }

  /** One frame: big-endian length, payload, checksum of both. */
  function Frame(payload: Bytes): (frame: Bytes)
    ensures |frame| == FrameSize(payload)
  {
    var length := EncodeLength(|payload|);
    length + payload + Checksum(length, payload)
  }

  function Serialize(payloads: seq<Bytes>): Bytes {
    if payloads == [] then [] else Frame(payloads[0]) + Serialize(payloads[1..])
  }

  /** A whole journal file holding `payloads`. */
  function Image(payloads: seq<Bytes>): Bytes {
    JOURNAL_MAGIC + Serialize(payloads)
  }

  datatype FormatError =
    | BadChecksum(offset: nat)
    | OversizedFrame(offset: nat)

  datatype Parsed = Parsed(frames: seq<Bytes>, length: nat)

  /** What the cursor loop computes when it stands at `cursor`. */
  function ParseFrom(bytes: Bytes, cursor: nat): Result<Parsed, FormatError>
    decreases |bytes| - cursor
  {
    if cursor + LENGTH_BYTES > |bytes| then Ok(Parsed([], cursor)) else
    var length := bytes[cursor..cursor + LENGTH_BYTES];
    var size := DecodeLength(length);
    if size == 0 || size > MAX_FRAME_BYTES then Err(OversizedFrame(cursor)) else
    var start := cursor + LENGTH_BYTES;
    if start + size + CHECKSUM_BYTES > |bytes| then Ok(Parsed([], cursor)) else
    var payload := bytes[start..start + size];
    if Checksum(length, payload) != bytes[start + size..start + size + CHECKSUM_BYTES] then Err(BadChecksum(cursor)) else
    After([payload], ParseFrom(bytes, start + size + CHECKSUM_BYTES))
  }

  /** A parse of later bytes, with the frames that came before. */
  function After(frames: seq<Bytes>, rest: Result<Parsed, FormatError>): Result<Parsed, FormatError> {
    match rest
    case Err(error) => Err(error)
    case Ok(parsed) => Ok(Parsed(frames + parsed.frames, parsed.length))
  }

  lemma AfterNothing(rest: Result<Parsed, FormatError>)
    ensures After([], rest) == rest
  {
    if rest.Ok? {
      assert [] + rest.value.frames == rest.value.frames;
    }
  }

  lemma AfterOne(frames: seq<Bytes>, payload: Bytes, rest: Result<Parsed, FormatError>)
    ensures After(frames, After([payload], rest)) == After(frames + [payload], rest)
  {
    if rest.Ok? {
      assert frames + ([payload] + rest.value.frames) == frames + [payload] + rest.value.frames;
    }
  }

  /** Parses everything after the header; the loop starts past it even when the
      bytes are shorter. */
  function Parse(bytes: Bytes): Result<Parsed, FormatError> {
    ParseFrom(bytes, |JOURNAL_MAGIC|)
  }

  /** The start of a frame that is not yet all there. */
  predicate IncompleteTail(tail: Bytes) {
    |tail| < LENGTH_BYTES ||
    var size := DecodeLength(tail[..LENGTH_BYTES]);
    1 <= size <= MAX_FRAME_BYTES && |tail| < LENGTH_BYTES + size + CHECKSUM_BYTES
  }

  /** The cursor loop over the bytes. Every turn moves the cursor by a frame
      with a non-empty payload. */
  method ParseFrames(bytes: Bytes) returns (result: Result<Parsed, FormatError>)
    ensures result == Parse(bytes)
  {
    hide DecodeLength, Checksum;
    var frames: seq<Bytes> := [];
    var cursor := |JOURNAL_MAGIC|;
    AfterNothing(ParseFrom(bytes, cursor));
    while cursor < |bytes|
      invariant |JOURNAL_MAGIC| <= cursor
      invariant Parse(bytes) == After(frames, ParseFrom(bytes, cursor))
      decreases |bytes| - cursor
    {
      if cursor + LENGTH_BYTES > |bytes| {
        break;
      }
      var length := bytes[cursor..cursor + LENGTH_BYTES];
      var size := DecodeLength(length);
      if size == 0 || size > MAX_FRAME_BYTES {
        return Err(OversizedFrame(cursor));
      }
      var start := cursor + LENGTH_BYTES;
      var checksumStart := start + size;
      var frameEnd := checksumStart + CHECKSUM_BYTES;
      if checksumStart > |bytes| || frameEnd > |bytes| {
        break;
      }
      var payload := bytes[start..checksumStart];
      if Checksum(length, payload) != bytes[checksumStart..frameEnd] {
        return Err(BadChecksum(cursor));
      }
      AfterOne(frames, payload, ParseFrom(bytes, frameEnd));
      frames := frames + [payload];
      cursor := frameEnd;
    }
    assert frames + [] == frames;
    result := Ok(Parsed(frames, cursor));
  }

  // ---------- serialization ----------

  lemma {:induction false} SerializeConcat(a: seq<Bytes>, b: seq<Bytes>)
    ensures Serialize(a + b) == Serialize(a) + Serialize(b)
  {
    hide Frame;
    if a == [] {
      assert a + b == b;
    } else {
      SerializeConcat(a[1..], b);
      assert (a + b)[1..] == a[1..] + b;
      Assoc(Frame(a[0]), Serialize(a[1..]), Serialize(b));
    }
  }

  lemma SerializeStep(payloads: seq<Bytes>)
    requires payloads != []
    ensures Serialize(payloads) == Frame(payloads[0]) + Serialize(payloads[1..])
  {
    hide Frame;
  }

  lemma SerializeOne(payload: Bytes)
    ensures Serialize([payload]) == Frame(payload)
  {
    assert Serialize([payload]) == Frame(payload) + Serialize([]);
  }

  /** Adding a batch to a journal adds its frames' bytes at the end. */
  lemma ImageConcat(payloads: seq<Bytes>, batch: seq<Bytes>)
    ensures Image(payloads + batch) == Image(payloads) + Serialize(batch)
  {
    SerializeConcat(payloads, batch);
  }

  /** The parts of a frame that stands at the front of some bytes. */
  lemma FrameParts(payload: Bytes, rest: Bytes)
    requires ValidPayload(payload)
    ensures var bytes := Frame(payload) + rest;
            && DecodeLength(bytes[..LENGTH_BYTES]) == |payload|
            && bytes[..LENGTH_BYTES] == EncodeLength(|payload|)
            && bytes[LENGTH_BYTES..LENGTH_BYTES + |payload|] == payload
            && bytes[LENGTH_BYTES + |payload|..FrameSize(payload)] == Checksum(EncodeLength(|payload|), payload)
            && bytes[FrameSize(payload)..] == rest
  {
    LengthRoundTrip(|payload|, EncodeLength(|payload|));
    hide EncodeLength, DecodeLength;
    var bytes := Frame(payload) + rest;
    assert bytes[..LENGTH_BYTES] == EncodeLength(|payload|);
  }

  // ---------- parsing against serialization ----------

  /** The loop stops, without error, in front of an interrupted frame. */
  lemma ParseStops(bytes: Bytes, cursor: nat)
    requires cursor <= |bytes| && IncompleteTail(bytes[cursor..])
    ensures ParseFrom(bytes, cursor) == Ok(Parsed([], cursor))
  {
    hide DecodeLength;
    if cursor + LENGTH_BYTES <= |bytes| {
      assert bytes[cursor..][..LENGTH_BYTES] == bytes[cursor..cursor + LENGTH_BYTES];
    }
  }

  /** The loop takes a whole frame. */
  lemma ParseSteps(bytes: Bytes, cursor: nat, payload: Bytes)
    requires ValidPayload(payload) && cursor + FrameSize(payload) <= |bytes|
    requires bytes[cursor..cursor + FrameSize(payload)] == Frame(payload)
    ensures ParseFrom(bytes, cursor) == After([payload], ParseFrom(bytes, cursor + FrameSize(payload)))
  {
    FrameParts(payload, []);
    hide EncodeLength, DecodeLength, Frame;
    var here := Frame(payload) + [];
    assert here == bytes[cursor..cursor + FrameSize(payload)];
    var start := cursor + LENGTH_BYTES;
    SliceOfSlice(bytes, cursor, FrameSize(payload), 0, LENGTH_BYTES);
    SliceOfSlice(bytes, cursor, FrameSize(payload), LENGTH_BYTES, LENGTH_BYTES + |payload|);
    SliceOfSlice(bytes, cursor, FrameSize(payload), LENGTH_BYTES + |payload|, FrameSize(payload));
  }

  /** When the loop neither stops nor fails, a whole frame stands at the cursor. */
  lemma ParseTook(bytes: Bytes, cursor: nat) returns (payload: Bytes)
    requires cursor <= |bytes| && ParseFrom(bytes, cursor).Ok? && !IncompleteTail(bytes[cursor..])
    ensures ValidPayload(payload) && cursor + FrameSize(payload) <= |bytes|
    ensures bytes[cursor..cursor + FrameSize(payload)] == Frame(payload)
  {
    hide EncodeLength, DecodeLength;
    var start := cursor + LENGTH_BYTES;
    var length := bytes[cursor..start];
    assert bytes[cursor..][..LENGTH_BYTES] == length;
    var size := DecodeLength(length);
    payload := bytes[start..start + size];
    LengthRoundTrip(0, length);
    assert bytes[start + size..start + size + CHECKSUM_BYTES] == Checksum(length, payload);
    assert bytes[cursor..cursor + FrameSize(payload)] == length + payload + Checksum(length, payload);
  }

  /** Parsing inverts serialization, also in front of an interrupted frame. */
  lemma {:induction false} ParseSerialized(before: Bytes, payloads: seq<Bytes>, tail: Bytes)
    requires ValidPayloads(payloads) && IncompleteTail(tail)
    ensures ParseFrom(before + Serialize(payloads) + tail, |before|)
         == Ok(Parsed(payloads, |before| + |Serialize(payloads)|))
    decreases |payloads|
  {
    hide ParseFrom, IncompleteTail, Frame;
    var bytes := before + Serialize(payloads) + tail;
    if payloads == [] {
      assert bytes[|before|..] == tail;
      ParseStops(bytes, |before|);
    } else {
      var after := before + Frame(payloads[0]);
      assert bytes == after + Serialize(payloads[1..]) + tail;
      ParseSerialized(after, payloads[1..], tail);
      assert bytes[|before|..|after|] == Frame(payloads[0]);
      ParseSteps(bytes, |before|, payloads[0]);
      assert payloads == [payloads[0]] + payloads[1..];
    }
  }

  /** Whenever parsing succeeds, the part it calls valid is exactly the
      serialization of what it returned, and only an interrupted frame follows. */
  lemma {:induction false} ParsedIsSerialized(bytes: Bytes, cursor: nat)
    requires cursor <= |bytes| && ParseFrom(bytes, cursor).Ok?
    ensures var parsed := ParseFrom(bytes, cursor).value;
            && cursor <= parsed.length <= |bytes|
            && ValidPayloads(parsed.frames)
            && bytes[cursor..parsed.length] == Serialize(parsed.frames)
            && IncompleteTail(bytes[parsed.length..])
    decreases |bytes| - cursor
  {
    hide ParseFrom, IncompleteTail, Frame;
    var parsed := ParseFrom(bytes, cursor).value;
    if IncompleteTail(bytes[cursor..]) {
      ParseStops(bytes, cursor);
    } else {
      var payload := ParseTook(bytes, cursor);
      var next := cursor + FrameSize(payload);
      ParseSteps(bytes, cursor, payload);
      ParsedIsSerialized(bytes, next);
      assert parsed.frames[1..] == ParseFrom(bytes, next).value.frames;
      assert bytes[cursor..parsed.length] == bytes[cursor..next] + bytes[next..parsed.length];
    }
  }

  /** How many whole frames the first `length` bytes of a serialization hold. */
  function WholeFrames(payloads: seq<Bytes>, length: nat): (k: nat)
    ensures k <= |payloads|
  {
    if payloads == [] || length < FrameSize(payloads[0]) then 0
    else 1 + WholeFrames(payloads[1..], length - FrameSize(payloads[0]))
  }

  /** A cut inside a frame leaves an interrupted frame. */
  lemma CutFrame(payload: Bytes, rest: Bytes, length: nat)
    requires ValidPayload(payload) && length < FrameSize(payload)
    ensures IncompleteTail((Frame(payload) + rest)[..length])
  {
    FrameParts(payload, rest);
    hide EncodeLength, DecodeLength, Frame;
    var tail := (Frame(payload) + rest)[..length];
    if LENGTH_BYTES <= length {
      assert tail[..LENGTH_BYTES] == (Frame(payload) + rest)[..LENGTH_BYTES];
    }
  }

  /** A cut serialization is a whole-frame prefix and an interrupted frame. */
  lemma {:induction false} CutSerialization(payloads: seq<Bytes>, length: nat) returns (tail: Bytes)
    requires ValidPayloads(payloads) && length <= |Serialize(payloads)|
    ensures Serialize(payloads)[..length] == Serialize(payloads[..WholeFrames(payloads, length)]) + tail
    ensures IncompleteTail(tail)
    decreases |payloads|
  {
    assert IncompleteTail([]);
    assert Serialize([]) == [];
    hide IncompleteTail, Frame, Serialize;
    if payloads == [] {
      tail := [];
    } else {
      var p, more := payloads[0], payloads[1..];
      SerializeStep(payloads);
      if length < FrameSize(p) {
        tail := Serialize(payloads)[..length];
        CutFrame(p, Serialize(more), length);
      } else {
        var rest := length - FrameSize(p);
        tail := CutSerialization(more, rest);
        var whole := more[..WholeFrames(more, rest)];
        TakeConcat(Frame(p), Serialize(more), length);
        Assoc(Frame(p), Serialize(whole), tail);
        SerializeStep(payloads[..1 + |whole|]);
        assert payloads[..1 + |whole|][1..] == whole;
      }
    }
  }

  /** No longer whole-frame prefix fits the cut. */
  lemma {:induction false} WholeFramesIsLongest(payloads: seq<Bytes>, length: nat, k: nat)
    requires WholeFrames(payloads, length) < k <= |payloads|
    ensures |Serialize(payloads[..k])| > length
    decreases |payloads|
  {
    hide Frame;
    assert payloads[..k][1..] == payloads[1..][..k - 1];
    if length >= FrameSize(payloads[0]) {
      WholeFramesIsLongest(payloads[1..], length - FrameSize(payloads[0]), k - 1);
    }
  }

  /** Cutting a journal image anywhere past the header never makes parsing fail:
      it returns the longest whole-frame prefix. */
  lemma ParseCutImage(payloads: seq<Bytes>, length: nat)
    requires ValidPayloads(payloads)
    requires |JOURNAL_MAGIC| <= length <= |Image(payloads)|
    ensures var k := WholeFrames(payloads, length - |JOURNAL_MAGIC|);
            && Parse(Image(payloads)[..length]) == Ok(Parsed(payloads[..k], |Image(payloads[..k])|))
            && (forall j :: k < j <= |payloads| ==> |Image(payloads[..j])| > length)
  {
    hide ParseFrom, IncompleteTail, WholeFrames, Serialize;
    var room := length - |JOURNAL_MAGIC|;
    var tail := CutSerialization(payloads, room);
    var k := WholeFrames(payloads, room);
    assert Image(payloads)[..length] == JOURNAL_MAGIC + Serialize(payloads)[..room];
    assert Image(payloads)[..length] == JOURNAL_MAGIC + Serialize(payloads[..k]) + tail;
    ParseSerialized(JOURNAL_MAGIC, payloads[..k], tail);
    forall j | k < j <= |payloads|
      ensures |Image(payloads[..j])| > length
    {
      WholeFramesIsLongest(payloads, room, j);
    }
  }

  /** A whole image parses to its payloads and to its full length. */
  lemma ParseImage(payloads: seq<Bytes>)
    requires ValidPayloads(payloads)
    ensures Parse(Image(payloads)) == Ok(Parsed(payloads, |Image(payloads)|))
  {
    ParseSerialized(JOURNAL_MAGIC, payloads, []);
    assert Image(payloads) == JOURNAL_MAGIC + Serialize(payloads) + [];
  }

  /** Two payload lists with one image are the same list. */
  lemma ImageInjective(a: seq<Bytes>, b: seq<Bytes>)
    requires ValidPayloads(a) && ValidPayloads(b) && Image(a) == Image(b)
    ensures a == b
  {
    ParseImage(a);
    ParseImage(b);
  }
}
