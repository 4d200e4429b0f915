/** Every state a cut operation can leave on disk, what opening makes of it, and
    what that means for whole runs. */
module JournalCrash {
  import opened Prelude
  import opened JournalFormat
  import opened JournalStore

  // ---------- the states a cut can leave ----------

  /** A cut append of `batch` to `frames`: any part of the new bytes under the old
      head, or all of them under the new one. */
  predicate TornAppend(store: Store, frames: seq<Bytes>, batch: seq<Bytes>) {
    || (store.head == Some(Head(frames)) && Image(frames) <= store.file <= Image(frames + batch))
    || store == Committed(frames + batch)
  }

  /** A cut replacement of `frames` by `payloads`: the rename and the head write
      each happened or not, in that order. */
  predicate TornCompact(store: Store, frames: seq<Bytes>, payloads: seq<Bytes>) {
    || store == Committed(frames)
    || store == Store(Image(payloads), Some(Head(frames)))
    || store == Committed(payloads)
  }

  /** A cut repair: the header part-written into an empty file, or the truncation
      and the first head write each done or not. */
  predicate TornOpen(before: Store, after: Store) {
    || after == before
    || (before.file == [] && after.head == before.head && after.file <= JOURNAL_MAGIC)
    || (var headed := Store(WithHeader(before.file), before.head);
        OpenStore(headed).Ok? &&
        var repaired := OpenStore(headed).value.store;
        after == headed || after == Store(repaired.file, headed.head) || after == repaired)
  }

  // ---------- what opening makes of them ----------

  /** After a cut append, opening succeeds and finds all of the batch or none of
      it, by whether the head write happened; file and head then agree. */
  lemma RecoverAppend(store: Store, frames: seq<Bytes>, batch: seq<Bytes>)
    requires Fits(frames + batch) && TornAppend(store, frames, batch)
    ensures var kept := if store.head == Some(Head(frames)) then frames else frames + batch;
            OpenStore(store) == Ok(Opened(kept, Committed(kept)))
  {
    hide Parse, Serialize;
    ImageConcat(frames, batch);
    PrefixValid(frames, batch);
    if store.head == Some(Head(frames)) {
      if store == Committed(frames + batch) {
        ImageInjective(frames, frames + batch);
      }
      CutImageIsReadable(store.file, frames + batch);
      assert HoldsCommitted(store.file, Head(frames), frames);
      OpenExactly(store, Head(frames));
    } else {
      OpenCommitted(frames + batch);
    }
  }

  lemma PrefixValid(frames: seq<Bytes>, batch: seq<Bytes>)
    requires ValidPayloads(frames + batch)
    ensures ValidPayloads(frames) && ValidPayloads(batch)
  {
    assert forall i :: 0 <= i < |frames| ==> frames[i] == (frames + batch)[i];
    assert forall i :: 0 <= i < |batch| ==> batch[i] == (frames + batch)[|frames| + i];
  }

  lemma CutImageIsReadable(file: Bytes, frames: seq<Bytes>)
    requires Fits(frames) && JOURNAL_MAGIC <= file <= Image(frames)
    ensures ReadFrames(file).Ok?
  {
    hide ParseFrom, Serialize;
    assert file == Image(frames)[..|file|];
    ParseCutImage(frames, |file|);
  }

  /** After a cut compaction, opening finds the old frames, the new ones, or asks
      for explicit recovery; it asks exactly when the rename happened without the
      head write and the new frames do not continue the old ones. */
  lemma RecoverCompact(store: Store, frames: seq<Bytes>, payloads: seq<Bytes>)
    requires Fits(frames) && Fits(payloads) && TornCompact(store, frames, payloads)
    ensures store == Committed(frames) ==> OpenStore(store) == Ok(Opened(frames, store))
    ensures store == Committed(payloads) ==> OpenStore(store) == Ok(Opened(payloads, store))
    ensures store != Committed(frames) && store != Committed(payloads) ==>
              OpenStore(store) == if frames <= payloads then Ok(Opened(frames, Committed(frames))) else Err(Rollback)
  {
    hide Parse, Serialize;
    OpenCommitted(frames);
    OpenCommitted(payloads);
    if store != Committed(frames) && store != Committed(payloads) {
      ParseImage(payloads);
      assert Image(payloads)[..|JOURNAL_MAGIC|] == JOURNAL_MAGIC;
      OpenExactly(store, Head(frames));
      ImagePrefix(frames, payloads);
      if frames <= payloads {
        assert HoldsCommitted(store.file, Head(frames), frames);
      } else {
        forall other | HoldsCommitted(store.file, Head(frames), other) ensures false {
          ImageInjective(frames, other);
        }
        RenamedOpenIsRollback(store, frames, payloads);
      }
    }
  }

  /** No error but a rollback can come from a whole image under another head. */
  lemma RenamedOpenIsRollback(store: Store, frames: seq<Bytes>, payloads: seq<Bytes>)
    requires Fits(payloads) && store == Store(Image(payloads), Some(Head(frames)))
    requires OpenStore(store).Err?
    ensures OpenStore(store) == Err(Rollback)
  {
    hide ParseFrom, Serialize;
    ParseImage(payloads);
    assert Image(payloads)[..|JOURNAL_MAGIC|] == JOURNAL_MAGIC;
    var length := |Image(frames)|;
    if |JOURNAL_MAGIC| <= length <= |Image(payloads)| {
      ParseCutImage(payloads, length);
    }
  }

  /** A repair can itself be cut anywhere. Opening again gives what it would have
      given, unless the cut was inside the header of a new file; then the file is
      refused. */
  lemma RecoverOpen(before: Store, after: Store)
    requires OpenStore(before).Ok? && TornOpen(before, after)
    ensures OpenStore(after) == OpenStore(before) <==> before.file != [] || |after.file| == 0 || |after.file| >= |JOURNAL_MAGIC|
    ensures OpenStore(after) != OpenStore(before) ==> OpenStore(after) == Err(InvalidHeader)
  {
    hide Parse, Serialize;
    HeaderFirst(before);
    OpenRepairs(before);
    var found := OpenStore(before).value;
    if before.file == [] && after.head == before.head && after.file <= JOURNAL_MAGIC {
      if 0 < |after.file| < |JOURNAL_MAGIC| {
        assert after.file == JOURNAL_MAGIC[..|after.file|];
        CutHeaderIsRefused(after.head, |after.file|);
      } else {
        assert after.file == [] || after.file == JOURNAL_MAGIC;
      }
    } else if after == Store(found.store.file, before.head) && before.head.None? {
      OpenWithoutHead(found.frames);
    }
  }

  /** Without a head, a whole image is taken as it is. */
  lemma OpenWithoutHead(frames: seq<Bytes>)
    requires Fits(frames)
    ensures OpenStore(Store(Image(frames), None)) == Ok(Opened(frames, Committed(frames)))
  {
    hide ParseFrom, Serialize;
    ParseImage(frames);
    assert Image(frames)[..|JOURNAL_MAGIC|] == JOURNAL_MAGIC;
    assert Image(frames)[..|Image(frames)|] == Image(frames);
  }

  // ---------- the caller's duty to reopen ----------

  /** What an append through a handle that absorbed `absorbed` leaves. */
  function AppendThrough(file: Bytes, absorbed: Bytes, frameCount: nat, payload: Bytes): Store {
    Store(file + Frame(payload),
          Some(Witness(|file| + FrameSize(payload), frameCount + 1, Sha256(absorbed + Frame(payload)))))
  }

  /** A handle that goes on appending after a cut append, over bytes its hasher
      did not absorb, leaves a journal that can be opened exactly when there were
      no such bytes. This is why callers must reopen after an error. */
  lemma AppendAfterTornAppend(frames: seq<Bytes>, torn: Bytes, payload: Bytes)
    requires Fits(frames) && ValidPayload(payload)
    requires |Image(frames)| + |torn| + FrameSize(payload) <= MAX_JOURNAL_BYTES
    ensures OpenStore(AppendThrough(Image(frames) + torn, Image(frames), |frames|, payload)).Ok? <==> torn == []
  {
    hide Parse, Serialize, Frame;
    var store := AppendThrough(Image(frames) + torn, Image(frames), |frames|, payload);
    SerializeOne(payload);
    ImageConcat(frames, [payload]);
    if torn == [] {
      assert store.file == Image(frames + [payload]);
      OpenCommitted(frames + [payload]);
    } else {
      OpenExactly(store, store.head.value);
      forall found | HoldsCommitted(store.file, store.head.value, found) ensures false {
      }
    }
  }

  // ---------- whole runs ----------

  /** Nothing was ever opened; or a process is up with its frames; or its last
      operation was cut, and opening may find any of the possible frame lists; or it
      went on appending after that, and opening finds one of them or is refused. */
  datatype Phase =
    | Fresh
    | Up(frames: seq<Bytes>)
    | Down(possible: set<seq<Bytes>>, replacing: bool)
    | Stale(possible: set<seq<Bytes>>)

  datatype Run = Run(store: Store, phase: Phase)

  datatype Event =
    | Appended(batch: seq<Bytes>)
    | AppendCut(batch: seq<Bytes>)
    | Compacted(payloads: seq<Bytes>)
    | CompactCut(payloads: seq<Bytes>)
    | Rewritten(payloads: seq<Bytes>)    // a compaction through a handle whose last operation failed
    | RewriteCut(payloads: seq<Bytes>)
    | AppendedOver(frames: seq<Bytes>, batch: seq<Bytes>)   // an append through such a handle, which stands for `frames`
    | AppendOverCut(frames: seq<Bytes>, batch: seq<Bytes>)
    | Stopped
    | Reopened
    | ReopenCut

  /** A cut replacement of whatever the file holds. */
  predicate TornRewrite(before: Store, after: Store, payloads: seq<Bytes>) {
    after == before || after == Store(Image(payloads), before.head) || after == Committed(payloads)
  }

  predicate Failed(phase: Phase) {
    phase.Down? || phase.Stale?
  }

  /** The head was written by a handle whose hasher had absorbed these frames. */
  predicate HashOf(store: Store, frames: seq<Bytes>) {
    store.head.Some? && store.head.value.digest == Sha256(Image(frames))
  }

  /** One step of a process and its disk. */
  predicate Step(s: Run, event: Event, t: Run) {
    match event
    case Appended(batch) =>
      s.phase.Up? && Fits(s.phase.frames + batch) &&
      t == Run(Committed(s.phase.frames + batch), Up(s.phase.frames + batch))
    case AppendCut(batch) =>
      s.phase.Up? && Fits(s.phase.frames + batch) &&
      TornAppend(t.store, s.phase.frames, batch) && t.phase == Down({s.phase.frames, s.phase.frames + batch}, false)
    case Compacted(payloads) =>
      s.phase.Up? && Fits(payloads) && t == Run(Committed(payloads), Up(payloads))
    case CompactCut(payloads) =>
      s.phase.Up? && Fits(payloads) &&
      TornCompact(t.store, s.phase.frames, payloads) && t.phase == Down({s.phase.frames, payloads}, true)
    case Rewritten(payloads) =>
      Failed(s.phase) && Fits(payloads) && t == Run(Committed(payloads), Up(payloads))
    case RewriteCut(payloads) =>
      Failed(s.phase) && Fits(payloads) && TornRewrite(s.store, t.store, payloads) &&
      t.phase == if s.phase.Down? then Down(s.phase.possible + {payloads}, true) else Stale(s.phase.possible + {payloads})
    case AppendedOver(frames, batch) =>
      Failed(s.phase) && frames in Candidates(s.phase) && Fits(frames + batch) &&
      t.store.file != [] && HashOf(t.store, frames + batch) && t.phase == Stale({frames + batch})
    case AppendOverCut(frames, batch) =>
      Failed(s.phase) && frames in Candidates(s.phase) && Fits(frames + batch) &&
      t.store.file != [] && (t.store.head == s.store.head || HashOf(t.store, frames + batch)) &&
      t.phase == Stale(Candidates(s.phase) + {frames + batch})
    case Stopped =>
      s.phase.Up? && t == Run(s.store, Down({s.phase.frames}, false))
    case Reopened =>
      !s.phase.Up? && OpenStore(s.store).Ok? &&
      t == Run(OpenStore(s.store).value.store, Up(OpenStore(s.store).value.frames))
    case ReopenCut =>
      !s.phase.Up? && TornOpen(s.store, t.store) && t.phase == s.phase
  }

  predicate Steps(run: seq<Run>, events: seq<Event>) {
    && |run| == |events| + 1
    && forall i :: 0 <= i < |events| ==> Step(run[i], events[i], run[i + 1])
  }

  /** Fresh: no more than a first opening can leave. Up: file and head agree. Down:
      the head is that of a possible frame list, and opening finds a possible one,
      or is refused as a rollback after a cut replacement. Stale: the head was hashed
      from a possible frame list, so that opening finds that one or is refused. */
  ghost predicate Sound(s: Run) {
    match s.phase
    case Fresh => (s.store.head.None? && s.store.file <= JOURNAL_MAGIC) || s.store == Committed([])
    case Up(frames) => Fits(frames) && s.store == Committed(frames)
    case Down(possible, replacing) =>
      && s.store.file != []
      && (forall f :: f in possible ==> Fits(f))
      && HeadIn(s.store, possible)
      && (match OpenStore(s.store)
          case Ok(found) => found.frames in possible
          case Err(error) => replacing && error == Rollback)
    case Stale(possible) => s.store.file != [] && (forall f :: f in possible ==> Fits(f)) && HashIn(s.store, possible)
  }

  ghost predicate HashIn(store: Store, possible: set<seq<Bytes>>) {
    exists f :: f in possible && HashOf(store, f)
  }

  ghost predicate HeadIn(store: Store, possible: set<seq<Bytes>>) {
    exists f :: f in possible && store.head == Some(Head(f))
  }

  /** A disk on which nothing was ever written is sound. */
  lemma NothingIsSound()
    ensures Sound(Run(Store([], None), Fresh))
  {
  }

  /** `to` comes from `from` by taking every acknowledged operation whole and
      every cut one whole or not at all. */
  predicate Explains(events: seq<Event>, from: seq<Bytes>, to: seq<Bytes>)
    decreases |events|
  {
    if events == [] then from == to else
    match events[0]
    case Appended(batch) => Explains(events[1..], from + batch, to)
    case AppendCut(batch) => Explains(events[1..], from, to) || Explains(events[1..], from + batch, to)
    case Compacted(payloads) => Explains(events[1..], payloads, to)
    case CompactCut(payloads) => Explains(events[1..], from, to) || Explains(events[1..], payloads, to)
    case Rewritten(payloads) => Explains(events[1..], payloads, to)
    case RewriteCut(payloads) => Explains(events[1..], from, to) || Explains(events[1..], payloads, to)
    case AppendedOver(frames, batch) => from == frames && Explains(events[1..], from + batch, to)
    case AppendOverCut(frames, batch) => Explains(events[1..], from, to) || (from == frames && Explains(events[1..], from + batch, to))
    case _ => Explains(events[1..], from, to)
  }

  /** The frame lists a run may still be at. */
  function Candidates(phase: Phase): set<seq<Bytes>> {
    match phase
    case Fresh => {[]}
    case Up(frames) => {frames}
    case Down(possible, _) => possible
    case Stale(possible) => possible
  }

  /** What opening a fresh disk does: it starts empty, or is refused, exactly when a
      first opening was cut inside the header. */
  lemma FreshOpens(s: Run)
    requires Sound(s) && s.phase.Fresh?
    ensures OpenStore(s.store) == if 0 < |s.store.file| < |JOURNAL_MAGIC| then Err(InvalidHeader) else Ok(Opened([], Committed([])))
  {
    hide Parse, Serialize;
    NoFrames();
    OpenCommitted([]);
    OpenWithoutHead([]);
    if s.store != Committed([]) {
      if 0 < |s.store.file| < |JOURNAL_MAGIC| {
        assert s.store.file == JOURNAL_MAGIC[..|s.store.file|];
        CutHeaderIsRefused(s.store.head, |s.store.file|);
      } else {
        assert s.store.file == [] || s.store.file == JOURNAL_MAGIC;
        HeaderFirst(s.store);
      }
    }
  }

  lemma NoFrames()
    ensures Image([]) == JOURNAL_MAGIC && Fits([])
  {
  }

  /** A sound process that is down comes up again with one of its possible frame
      lists; only a cut replacement can instead be refused, as a rollback, and only
      a cut first header as an invalid one; and one that went on after a failure in
      any way. */
  lemma SoundOpens(s: Run)
    requires Sound(s) && !s.phase.Up?
    ensures OpenStore(s.store).Ok? ==>
              var found := OpenStore(s.store).value;
              found.frames in Candidates(s.phase) && found.store == Committed(found.frames) && Fits(found.frames)
    ensures OpenStore(s.store).Err? ==>
              || (s.phase.Down? && s.phase.replacing && OpenStore(s.store) == Err(Rollback))
              || (s.phase.Fresh? && 0 < |s.store.file| < |JOURNAL_MAGIC| && OpenStore(s.store) == Err(InvalidHeader))
              || s.phase.Stale?
  {
    hide OpenStore, Image;
    if s.phase.Fresh? {
      FreshOpens(s);
    }
    if OpenStore(s.store).Ok? {
      OpenRepairs(s.store);
      if s.phase.Stale? {
        RepairOnlyTruncates(s.store);
        HashedOne(s.store, s.phase.possible, OpenStore(s.store).value.frames);
      }
    }
  }

  /** The frames under a head are those it was hashed from. */
  lemma HashedOne(store: Store, possible: set<seq<Bytes>>, frames: seq<Bytes>)
    requires HashIn(store, possible) && (forall f :: f in possible ==> Fits(f)) && Fits(frames) && store.head == Some(Head(frames))
    ensures frames in possible
  {
    hide Image;
    var f :| f in possible && HashOf(store, f);
    ImageInjective(f, frames);
  }

  lemma StepSound(s: Run, event: Event, t: Run)
    requires Sound(s) && Step(s, event, t)
    ensures Sound(t)
  {
    hide OpenStore, Image, Fits, HeadIn;
    match event
    case Appended(batch) =>
    case AppendCut(batch) => AppendCutSound(s, batch, t);
    case Compacted(payloads) =>
    case CompactCut(payloads) => ReplaceCutSound(t.store, s.phase.frames, payloads, t.phase.possible);
    case Rewritten(payloads) =>
    case RewriteCut(payloads) => RewriteCutSound(s, payloads, t);
    case AppendedOver(frames, batch) => assert frames + batch in t.phase.possible;
    case AppendOverCut(frames, batch) => OverCutSound(s, frames, batch, t);
    case Stopped => StoppedSound(s, t);
    case Reopened => SoundOpens(s);
    case ReopenCut => ReopenCutSound(s, t);
  }

  lemma StoppedSound(s: Run, t: Run)
    requires Sound(s) && Step(s, Stopped, t)
    ensures Sound(t)
  {
    hide OpenStore, Serialize;
    OpenCommitted(s.phase.frames);
    assert s.phase.frames in t.phase.possible;
  }

  lemma AppendCutSound(s: Run, batch: seq<Bytes>, t: Run)
    requires Sound(s) && Step(s, AppendCut(batch), t)
    ensures Sound(t)
  {
    hide OpenStore, Serialize;
    var before, after := s.phase.frames, s.phase.frames + batch;
    RecoverAppend(t.store, before, batch);
    PrefixFits(before, batch);
    assert before in t.phase.possible && after in t.phase.possible;
  }

  lemma PrefixFits(before: seq<Bytes>, batch: seq<Bytes>)
    requires Fits(before + batch)
    ensures Fits(before) && Image(before) != []
  {
    hide Serialize;
    ImageConcat(before, batch);
    PrefixValid(before, batch);
  }

  /** What a cut replacement leaves under the head of `frames`. */
  lemma ReplaceCutSound(store: Store, frames: seq<Bytes>, payloads: seq<Bytes>, possible: set<seq<Bytes>>)
    requires Fits(frames) && Fits(payloads) && TornCompact(store, frames, payloads)
    requires frames in possible && payloads in possible && forall f :: f in possible ==> Fits(f)
    ensures Sound(Run(store, Down(possible, true)))
  {
    hide OpenStore, Serialize;
    RecoverCompact(store, frames, payloads);
  }

  lemma RewriteCutSound(s: Run, payloads: seq<Bytes>, t: Run)
    requires Sound(s) && Step(s, RewriteCut(payloads), t)
    ensures Sound(t)
  {
    hide OpenStore, Image, Fits;
    assert forall f :: f in s.phase.possible ==> f in t.phase.possible;
    if s.phase.Stale? {
      var f :| f in s.phase.possible && HashOf(s.store, f);
      assert HashOf(t.store, f) || HashOf(t.store, payloads);
      NotEmpty(payloads);
    } else if t.store != s.store {
      var f :| f in s.phase.possible && s.store.head == Some(Head(f));
      ReplaceCutSound(t.store, f, payloads, t.phase.possible);
    }
  }

  lemma NotEmpty(frames: seq<Bytes>)
    ensures Image(frames) != []
  {
  }

  lemma OverCutSound(s: Run, frames: seq<Bytes>, batch: seq<Bytes>, t: Run)
    requires Sound(s) && Step(s, AppendOverCut(frames, batch), t)
    ensures Sound(t)
  {
    hide OpenStore, Image, Fits;
    assert forall f :: f in s.phase.possible ==> f in t.phase.possible;
    assert frames + batch in t.phase.possible;
    if t.store.head == s.store.head {
      if s.phase.Down? {
        var f :| f in s.phase.possible && s.store.head == Some(Head(f));
        assert HashOf(t.store, f);
      } else {
        var f :| f in s.phase.possible && HashOf(s.store, f);
        assert HashOf(t.store, f);
      }
    }
  }

  /** A cut repair changes nothing about what opening finds. */
  lemma ReopenCutSound(s: Run, t: Run)
    requires Sound(s) && Step(s, ReopenCut, t)
    ensures Sound(t)
  {
    hide OpenStore, Serialize;
    if s.phase.Fresh? {
      FreshOpens(s);
      HeaderFirst(s.store);
      NoFrames();
    } else if OpenStore(s.store).Ok? {
      RecoverOpen(s.store, t.store);
      OpenRepairs(s.store);
      RepairOnlyTruncates(s.store);
    }
  }

  /** An opening that was cut or refused, or repaired and then given up, leaves the
      disk as a cut opening does. */
  lemma GivenUpOpening(s: Run, after: Store)
    requires Sound(s) && !s.phase.Up?
    requires || TornOpen(s.store, after)
             || (OpenStore(s.store).Err? && after == Store(WithHeader(s.store.file), s.store.head))
             || (OpenStore(s.store).Ok? && after == OpenStore(s.store).value.store)
    ensures Step(s, ReopenCut, s.(store := after))
  {
    hide OpenStore;
    HeaderFirst(s.store);
    if s.phase.Fresh? {
      FreshOpens(s);
    }
  }

  /** Safety over every run, from the very first opening on: however the process is
      cut and reopened, the run stays sound; whenever it is up, its frames are
      explained by the acknowledged operations and some of the cut ones, each whole. */
  lemma {:induction false} RunIsAtomicAndDurable(run: seq<Run>, events: seq<Event>)
    requires Steps(run, events) && Sound(run[0])
    ensures forall s :: s in run ==> Sound(s)
    ensures var last := run[|run| - 1].phase;
            last.Up? ==> exists from :: from in Candidates(run[0].phase) && Explains(events, from, last.frames)
    decreases |events|
  {
    hide Step, Sound;
    if events == [] {
      assert run == [run[0]];
      assert run[0].phase.Up? ==> run[0].phase.frames in Candidates(run[0].phase);
    } else {
      StepSound(run[0], events[0], run[1]);
      var rest := run[1..];
      assert Steps(rest, events[1..]);
      RunIsAtomicAndDurable(rest, events[1..]);
      assert run == [run[0]] + rest;
      if run[|run| - 1].phase.Up? {
        var to := run[|run| - 1].phase.frames;
        var next :| next in Candidates(run[1].phase) && Explains(events[1..], next, to);
        var from := FirstStep(run[0], events[0], run[1], next);
        assert Explains(events, from, to);
      }
    }
  }

  /** Where a candidate after one step comes from. */
  lemma FirstStep(s: Run, event: Event, t: Run, next: seq<Bytes>) returns (from: seq<Bytes>)
    requires Sound(s) && Step(s, event, t) && next in Candidates(t.phase)
    ensures from in Candidates(s.phase)
    ensures match event
            case Appended(batch) => next == from + batch
            case AppendCut(batch) => next == from || next == from + batch
            case Compacted(payloads) => next == payloads
            case CompactCut(payloads) => next == from || next == payloads
            case Rewritten(payloads) => next == payloads
            case RewriteCut(payloads) => next == from || next == payloads
            case AppendedOver(frames, batch) => from == frames && next == from + batch
            case AppendOverCut(frames, batch) => next == from || (from == frames && next == from + batch)
            case _ => next == from
  {
    hide OpenStore, Image, Fits;
    if event.Reopened? {
      SoundOpens(s);
      from := next;
    } else if s.phase.Up? {
      from := s.phase.frames;
    } else if event.AppendedOver? || (event.AppendOverCut? && next !in Candidates(s.phase)) {
      from := event.frames;
    } else if next in Candidates(s.phase) {
      from := next;
    } else {
      from :| from in Candidates(s.phase);
    }
  }

  /** The one way to lose a journal: a first opening cut inside the header. From
      there on no step but another refused opening is possible. */
  lemma {:induction false} CutHeaderIsFinal(run: seq<Run>, events: seq<Event>)
    requires Steps(run, events) && Sound(run[0]) && run[0].phase.Fresh? && 0 < |run[0].store.file| < |JOURNAL_MAGIC|
    ensures forall s :: s in run ==> s == run[0]
    decreases |events|
  {
    if events == [] {
      assert run == [run[0]];
    } else {
      FreshOpens(run[0]);
      hide OpenStore, Sound;
      assert Step(run[0], events[0], run[1]);
      assert run[1] == run[0];
      var rest := run[1..];
      assert Steps(rest, events[1..]);
      CutHeaderIsFinal(rest, events[1..]);
      assert run == [run[0]] + rest;
    }
  }
}
