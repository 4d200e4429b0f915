/** Whole runs of a peer directory over its journal: imports, pages, compactions,
    cuts anywhere in them, and reopenings. */
module PeerRuns {
  import opened Prelude
  import opened Contacts
  import opened PeerMerge
  import opened PeerReplay
  import opened DialHints
  import F = JournalFormat
  import S = JournalStore
  import C = JournalCrash

  // ---------- contacts and their bytes ----------

  predicate AllEncode(log: seq<Contact>) {
    forall c :: c in log ==> CONTACTS.encode(c).Some?
  }

  function Encodings(log: seq<Contact>): (frames: seq<Bytes>)
    requires AllEncode(log)
    ensures |frames| == |log|
  {
    seq(|log|, i requires 0 <= i < |log| => CONTACTS.encode(log[i]).value)
  }

  predicate AllDecode(frames: seq<Bytes>) {
    forall f :: f in frames ==> CONTACTS.decode(f).Some?
  }

  function LogOf(frames: seq<Bytes>): (log: seq<Contact>)
    requires AllDecode(frames)
    ensures |log| == |frames|
  {
    seq(|frames|, i requires 0 <= i < |frames| => CONTACTS.decode(frames[i]).value)
  }

  /** The frames written for a log are read back as that log, and are payloads. */
  lemma LogRoundTrip(log: seq<Contact>)
    requires AllEncode(log)
    ensures AllDecode(Encodings(log)) && LogOf(Encodings(log)) == log && F.ValidPayloads(Encodings(log))
  {
    var frames := Encodings(log);
    forall i | 0 <= i < |log|
      ensures CONTACTS.decode(frames[i]) == Some(log[i]) && F.ValidPayload(frames[i])
    {
      assert log[i] in log;
      assert CONTACTS.encode(log[i]) == Some(frames[i]);
    }
  }

  lemma LogConcat(a: seq<Bytes>, b: seq<Bytes>)
    requires AllDecode(a) && AllDecode(b)
    ensures AllDecode(a + b) && LogOf(a + b) == LogOf(a) + LogOf(b)
  {
    assert LogOf(a + b) == LogOf(a) + LogOf(b);
  }

  /** Opening decodes, checks and applies frame by frame. */
  function ReplayFrames(config: Config, entries: Entries, frames: seq<Bytes>): Result<Entries, DirectoryError>
    decreases |frames|
  {
    if frames == [] then Ok(entries) else
    match CONTACTS.decode(frames[0])
    case None => Err(InvalidContact)
    case Some(contact) =>
      match ReplayOne(config, entries, contact)
      case Err(error) => Err(error)
      case Ok(next) => ReplayFrames(config, next, frames[1..])
  }

  /** Frame by frame is the replay of the log, and it fails on a foreign frame. */
  lemma {:induction false} ReplayFramesIsReplay(config: Config, entries: Entries, frames: seq<Bytes>)
    ensures if AllDecode(frames) then ReplayFrames(config, entries, frames) == Replay(config, entries, LogOf(frames))
            else ReplayFrames(config, entries, frames).Err?
    decreases |frames|
  {
    hide ReplayOne;
    if frames != [] {
      assert frames == [frames[0]] + frames[1..];
      if CONTACTS.decode(frames[0]).Some? {
        var next := ReplayOne(config, entries, CONTACTS.decode(frames[0]).value);
        if next.Ok? {
          ReplayFramesIsReplay(config, next.value, frames[1..]);
        }
        if AllDecode(frames) {
          assert frames[0] in frames;
          assert LogOf(frames)[1..] == LogOf(frames[1..]);
        }
      }
    }
  }

  // ---------- the run ----------

  /** A directory and its disk. `held` are the frames its handle stands for, and
      `views` the entries of which opening now would find some, up to alikeness. */
  datatype World = World(journal: C.Run, memory: Option<Entries>, held: seq<Bytes>, views: set<Entries>)

  datatype Event =
    | Imported(contacts: seq<Contact>)   // one contact, or a page with one synchronization
    | ImportCut(contacts: seq<Contact>)
    | Compacted
    | CompactCut
    | Stopped
    | Reopened
    | ReopenCut

  /** Contacts applied in order. */
  function ApplyAll(config: Config, entries: Entries, contacts: seq<Contact>): Entries
    decreases |contacts|
  {
    if contacts == [] then entries else ApplyAll(config, Apply(config, entries, contacts[0]), contacts[1..])
  }

  /** Those among them that are persisted. */
  function Logged(config: Config, entries: Entries, contacts: seq<Contact>): seq<Contact>
    decreases |contacts|
  {
    if contacts == [] then [] else
    (if Changes(config, entries, contacts[0]) then [contacts[0]] else []) +
    Logged(config, Apply(config, entries, contacts[0]), contacts[1..])
  }

  /** Each was authorized at some time and has bytes. */
  predicate Accepted(config: Config, contacts: seq<Contact>) {
    forall c :: c in contacts ==> CONTACTS.encode(c).Some? && c.endpoint.record.issuedAt <= U64_MAX &&
                                  exists now :: 0 <= now <= U64_MAX && Verify(c, config.root, now)
  }

  ghost predicate CanonicalOf(entries: Entries, log: seq<Contact>) {
    exists nodes :: Enumerates(nodes, entries) && log == CanonicalLog(entries, nodes)
  }

  ghost predicate CompactsTo(entries: Entries, frames: seq<Bytes>) {
    AllDecode(frames) && CanonicalOf(entries, LogOf(frames))
  }

  /** What an append of `batch` is for the journal: after a failure it goes on
      through a handle that stands for `held`. */
  function Append(w: World, batch: seq<Bytes>, cut: bool): C.Event {
    if w.journal.phase.Up? then if cut then C.AppendCut(batch) else C.Appended(batch)
    else if cut then C.AppendOverCut(w.held, batch) else C.AppendedOver(w.held, batch)
  }

  function Replace(w: World, frames: seq<Bytes>, cut: bool): C.Event {
    if w.journal.phase.Up? then if cut then C.CompactCut(frames) else C.Compacted(frames)
    else if cut then C.RewriteCut(frames) else C.Rewritten(frames)
  }

  ghost predicate ImportStep(config: Config, w: World, contacts: seq<Contact>, v: World, cut: bool) {
    && w.memory.Some? && Accepted(config, contacts)
    && var batch := Logged(config, w.memory.value, contacts);
       var next := ApplyAll(config, w.memory.value, contacts);
       && AllEncode(batch) && C.Step(w.journal, Append(w, Encodings(batch), cut), v.journal)
       && if cut then v == World(v.journal, w.memory, w.held, w.views + {next})
          else v == World(v.journal, Some(next), w.held + Encodings(batch), {next})
  }

  /** A compaction, also through a handle whose last operation was cut. */
  ghost predicate CompactStep(w: World, frames: seq<Bytes>, v: World, cut: bool) {
    && w.memory.Some? && CompactsTo(w.memory.value, frames) && C.Step(w.journal, Replace(w, frames, cut), v.journal)
    && if cut then v == World(v.journal, w.memory, w.held, w.views + {w.memory.value})
       else v == World(v.journal, w.memory, frames, {w.memory.value})
  }

  ghost predicate ReopenStep(config: Config, w: World, v: World) {
    && w.memory.None? && C.Step(w.journal, C.Reopened, v.journal) && v.journal.phase.Up?
    && var replayed := ReplayFrames(config, map[], v.journal.phase.frames);
       replayed.Ok? && v == World(v.journal, Some(replayed.value), v.journal.phase.frames, {replayed.value})
  }

  ghost predicate Step(config: Config, w: World, event: Event, v: World) {
    match event
    case Imported(contacts) => ImportStep(config, w, contacts, v, false)
    case ImportCut(contacts) => ImportStep(config, w, contacts, v, true)
    case Compacted => exists frames :: CompactStep(w, frames, v, false)
    case CompactCut => exists frames :: CompactStep(w, frames, v, true)
    case Stopped =>
      && w.memory.Some? && v == World(v.journal, None, w.held, w.views)
      && if w.journal.phase.Up? then C.Step(w.journal, C.Stopped, v.journal) else v.journal == w.journal
    case Reopened => ReopenStep(config, w, v)
    case ReopenCut => w.memory.None? && C.Step(w.journal, C.ReopenCut, v.journal) && v == World(v.journal, None, w.held, w.views)
  }

  // ---------- what every step keeps ----------

  /** The frames replay without error, to entries alike. */
  ghost predicate OpensTo(config: Config, frames: seq<Bytes>, entries: Entries) {
    && AllDecode(frames) && ReplayAll(config, LogOf(frames)).Ok?
    && GoodEntries(config, entries) && GoodEntries(config, ReplayAll(config, LogOf(frames)).value)
    && AlikeEntries(entries, ReplayAll(config, LogOf(frames)).value)
  }

  ghost predicate OpensToOne(config: Config, frames: seq<Bytes>, views: set<Entries>) {
    exists e :: e in views && OpensTo(config, frames, e)
  }

  ghost predicate AllOpen(config: Config, w: World) {
    forall f :: f in C.Candidates(w.journal.phase) ==> OpensToOne(config, f, w.views)
  }

  /** Whatever opening may find replays, to one of the views or to entries alike. */
  ghost predicate Safe(config: Config, w: World) {
    && C.Sound(w.journal) && AllOpen(config, w)
    && (w.memory.Some? ==> w.memory.value in w.views && w.held in C.Candidates(w.journal.phase) && OpensTo(config, w.held, w.memory.value))
    && (w.journal.phase.Up? ==> w.memory.Some? && w.views == {w.memory.value} && w.held == w.journal.phase.frames)
    && (w.journal.phase.Fresh? ==> w.memory.None? && w.views == {map[]})
  }

  /** A disk on which nothing was ever written is a safe start. */
  lemma NothingIsSafe(config: Config)
    ensures Safe(config, World(C.Run(S.Store([], None), C.Fresh), None, [], {map[]}))
  {
    C.NothingIsSound();
    assert LogOf([]) == [];
    assert OpensTo(config, [], map[]);
  }

  /** Applying contacts to alike directories logs the same contacts, keeps them
      good and alike, and the longer log replays to the replayed directory's next. */
  lemma {:induction false} ApplyAllSound(config: Config, live: Entries, replayed: Entries, log: seq<Contact>, contacts: seq<Contact>)
    requires GoodEntries(config, live) && GoodEntries(config, replayed) && AlikeEntries(live, replayed)
    requires ReplayAll(config, log) == Ok(replayed) && Accepted(config, contacts)
    ensures var live', replayed' := ApplyAll(config, live, contacts), ApplyAll(config, replayed, contacts);
            && GoodEntries(config, live') && GoodEntries(config, replayed') && AlikeEntries(live', replayed')
            && Logged(config, live, contacts) == Logged(config, replayed, contacts)
            && ReplayAll(config, log + Logged(config, live, contacts)) == Ok(replayed')
    decreases |contacts|
  {
    hide GoodEntries, AlikeEntries, ReplayAll, Apply, Changes, Accepted, Answer, Storable;
    if contacts == [] {
      assert log + [] == log;
    } else {
      var first, rest := contacts[0], contacts[1..];
      AcceptedFirst(config, contacts);
      ApplyKeepsGood(config, live, first);
      ApplyKeepsGood(config, replayed, first);
      ApplyAlike(config, live, replayed, first);
      var log' := if Changes(config, replayed, first) then log + [first] else log;
      if Changes(config, replayed, first) {
        ReplayAppend(config, log, replayed, first);
      } else {
        ChangesExactly(config, replayed, first);
      }
      ApplyAllSound(config, Apply(config, live, first), Apply(config, replayed, first), log', rest);
      var more := Logged(config, Apply(config, live, first), rest);
      assert log + ([first] + more) == log + [first] + more;
      assert log + ([] + more) == log + more;
    }
  }

  /** What was accepted can be stored. */
  lemma AcceptedFirst(config: Config, contacts: seq<Contact>)
    requires contacts != [] && Accepted(config, contacts)
    ensures Storable(contacts[0], config.root) && Accepted(config, contacts[1..])
  {
    hide Verify;
    assert contacts[0] in contacts;
    var now :| 0 <= now <= U64_MAX && Verify(contacts[0], config.root, now);
    VerifyWindow(contacts[0], config.root, now, now);
  }

  lemma {:induction false} LoggedAmong(config: Config, entries: Entries, contacts: seq<Contact>)
    ensures forall c :: c in Logged(config, entries, contacts) ==> c in contacts
    decreases |contacts|
  {
    hide Apply, Changes;
    if contacts != [] {
      LoggedAmong(config, Apply(config, entries, contacts[0]), contacts[1..]);
      assert contacts == [contacts[0]] + contacts[1..];
    }
  }

  /** What an import appends, and what the longer journal opens to. */
  lemma ImportOpens(config: Config, frames: seq<Bytes>, entries: Entries, contacts: seq<Contact>)
    requires OpensTo(config, frames, entries) && Accepted(config, contacts)
    ensures AllEncode(Logged(config, entries, contacts))
    ensures OpensTo(config, frames + Encodings(Logged(config, entries, contacts)), ApplyAll(config, entries, contacts))
  {
    hide GoodEntries, AlikeEntries, ReplayAll, ApplyAll, Logged, Verify, LogOf, Encodings, AllDecode;
    var log, batch := LogOf(frames), Logged(config, entries, contacts);
    LoggedAmong(config, entries, contacts);
    assert AllEncode(batch);
    LogRoundTrip(batch);
    LogConcat(frames, Encodings(batch));
    ApplyAllSound(config, entries, ReplayAll(config, log).value, log, contacts);
  }

  /** Everything that replays is good. */
  lemma {:induction false} ReplayIsGood(config: Config, entries: Entries, log: seq<Contact>)
    requires GoodEntries(config, entries) && Replay(config, entries, log).Ok?
    ensures GoodEntries(config, Replay(config, entries, log).value)
    decreases |log|
  {
    hide GoodEntries, Apply, Answer, Storable;
    if log != [] {
      ApplyKeepsGood(config, entries, log[0]);
      ReplayIsGood(config, Apply(config, entries, log[0]), log[1..]);
    }
  }

  lemma ReplayAllIsGood(config: Config, log: seq<Contact>)
    requires ReplayAll(config, log).Ok?
    ensures GoodEntries(config, ReplayAll(config, log).value)
  {
    hide GoodEntry, Replay;
    assert GoodEntries(config, map[]);
    ReplayIsGood(config, map[], log);
  }

  lemma CompactSound(config: Config, entries: Entries, log: seq<Contact>)
    requires GoodEntries(config, entries) && CanonicalOf(entries, log)
    ensures ReplayAll(config, log).Ok?
    ensures GoodEntries(config, ReplayAll(config, log).value)
    ensures AlikeEntries(entries, ReplayAll(config, log).value)
  {
    hide AlikeEntries, CanonicalLog, Enumerates, GoodEntry, Replay;
    var nodes :| Enumerates(nodes, entries) && log == CanonicalLog(entries, nodes);
    CompactedLogReplays(config, entries, nodes);
    ReplayAllIsGood(config, log);
  }

  lemma CompactOpens(config: Config, entries: Entries, frames: seq<Bytes>)
    requires GoodEntries(config, entries) && CompactsTo(entries, frames)
    ensures OpensTo(config, frames, entries)
  {
    hide GoodEntries, AlikeEntries, ReplayAll, CanonicalOf, LogOf, AllDecode;
    CompactSound(config, entries, LogOf(frames));
  }

  lemma SelfAlike(entries: Entries)
    ensures AlikeEntries(entries, entries)
  {
  }

  lemma ReplayOpens(config: Config, frames: seq<Bytes>)
    requires ReplayFrames(config, map[], frames).Ok?
    ensures OpensTo(config, frames, ReplayFrames(config, map[], frames).value)
  {
    hide GoodEntries, AlikeEntries, ReplayFrames, Replay, LogOf, AllDecode;
    ReplayFramesIsReplay(config, map[], frames);
    ReplayAllIsGood(config, LogOf(frames));
    SelfAlike(ReplayAll(config, LogOf(frames)).value);
  }

  lemma ImportSafe(config: Config, w: World, contacts: seq<Contact>, v: World, cut: bool)
    requires Safe(config, w) && ImportStep(config, w, contacts, v, cut)
    ensures Safe(config, v)
  {
    hide OpensTo, ApplyAll, Logged, Accepted, Encodings, C.Sound, AllEncode, S.Fits, S.Committed, C.TornAppend, C.HashOf;
    var m := w.memory.value;
    var batch, next := Encodings(Logged(config, m, contacts)), ApplyAll(config, m, contacts);
    C.StepSound(w.journal, Append(w, batch, cut), v.journal);
    ImportOpens(config, w.held, m, contacts);
    assert next in v.views;
    forall f | f in C.Candidates(v.journal.phase) ensures OpensToOne(config, f, v.views) {
      if f != w.held + batch {
        assert f in C.Candidates(w.journal.phase) && OpensToOne(config, f, w.views);
      }
    }
  }

  lemma CompactSafe(config: Config, w: World, frames: seq<Bytes>, v: World, cut: bool)
    requires Safe(config, w) && CompactStep(w, frames, v, cut)
    ensures Safe(config, v)
  {
    hide OpensTo, CompactsTo, C.Sound, C.Step, C.Candidates;
    var m := w.memory.value;
    C.StepSound(w.journal, Replace(w, frames, cut), v.journal);
    ReplacePhase(w, frames, v.journal, cut);
    OpensToGood(config, w.held, m);
    CompactOpens(config, m, frames);
    assert m in v.views;
    forall f | f in C.Candidates(v.journal.phase) ensures OpensToOne(config, f, v.views) {
      if f != frames {
        assert OpensToOne(config, f, w.views);
      }
    }
  }

  /** What a compaction adds to and leaves of the frame lists. */
  lemma ReplacePhase(w: World, frames: seq<Bytes>, t: C.Run, cut: bool)
    requires C.Step(w.journal, Replace(w, frames, cut), t)
    ensures C.Candidates(t.phase) == if cut then C.Candidates(w.journal.phase) + {frames} else {frames}
    ensures !t.phase.Fresh? && (t.phase.Up? <==> !cut) && (t.phase.Up? ==> t.phase.frames == frames)
  {
    hide S.Fits, S.Committed, C.TornCompact, C.TornRewrite;
  }

  lemma OpensToGood(config: Config, frames: seq<Bytes>, entries: Entries)
    requires OpensTo(config, frames, entries)
    ensures GoodEntries(config, entries)
  {
  }

  lemma ReopenSafe(config: Config, w: World, v: World)
    requires Safe(config, w) && ReopenStep(config, w, v)
    ensures Safe(config, v)
  {
    hide OpensTo, C.Sound, S.OpenStore, ReplayFrames;
    C.StepSound(w.journal, C.Reopened, v.journal);
    ReplayOpens(config, v.journal.phase.frames);
    assert v.memory.value in v.views;
  }

  lemma StepSafe(config: Config, w: World, event: Event, v: World)
    requires Safe(config, w) && Step(config, w, event, v)
    ensures Safe(config, v)
  {
    hide OpensTo, C.Sound, GoodEntries, ImportStep, CompactStep, ReopenStep, S.OpenStore, C.TornOpen;
    match event
    case Imported(contacts) => ImportSafe(config, w, contacts, v, false);
    case ImportCut(contacts) => ImportSafe(config, w, contacts, v, true);
    case Compacted =>
      var frames :| CompactStep(w, frames, v, false);
      CompactSafe(config, w, frames, v, false);
    case CompactCut =>
      var frames :| CompactStep(w, frames, v, true);
      CompactSafe(config, w, frames, v, true);
    case Stopped =>
      if w.journal.phase.Up? {
        C.StepSound(w.journal, C.Stopped, v.journal);
      }
    case Reopened => ReopenSafe(config, w, v);
    case ReopenCut => C.StepSound(w.journal, C.ReopenCut, v.journal);
  }

  // ---------- every run ----------

  ghost predicate Run(config: Config, worlds: seq<World>, events: seq<Event>) {
    && |worlds| == |events| + 1
    && forall i :: 0 <= i < |events| ==> Step(config, worlds[i], events[i], worlds[i + 1])
  }

  /** Over every run, from the first opening of an empty disk on: whatever opening
      can find at any moment replays, to entries alike those acknowledged. */
  lemma {:induction false} RunSafe(config: Config, worlds: seq<World>, events: seq<Event>)
    requires Run(config, worlds, events) && Safe(config, worlds[0])
    ensures forall w :: w in worlds ==> Safe(config, w)
    decreases |events|
  {
    hide Safe, Step;
    if events == [] {
      assert worlds == [worlds[0]];
    } else {
      StepSafe(config, worlds[0], events[0], worlds[1]);
      assert Run(config, worlds[1..], events[1..]);
      RunSafe(config, worlds[1..], events[1..]);
      assert worlds == [worlds[0]] + worlds[1..];
    }
  }

  ghost predicate ReplaysAlike(config: Config, frames: seq<Bytes>, views: set<Entries>) {
    && ReplayFrames(config, map[], frames).Ok?
    && exists e :: e in views && AlikeEntries(e, ReplayFrames(config, map[], frames).value)
  }

  /** A directory that went down opens again: what the journal gives replays, to
      entries alike one of the views. The journal is refused only after a cut
      compaction, as a rollback, or after a first opening cut inside the header, or
      when it was appended to after a failure. */
  lemma SafeReopens(config: Config, w: World)
    requires Safe(config, w) && !w.journal.phase.Up?
    ensures S.OpenStore(w.journal.store).Ok? ==> ReplaysAlike(config, S.OpenStore(w.journal.store).value.frames, w.views)
    ensures S.OpenStore(w.journal.store).Err? ==>
              || (S.OpenStore(w.journal.store) == Err(S.Rollback) && w.journal.phase.Down? && w.journal.phase.replacing)
              || (S.OpenStore(w.journal.store) == Err(S.InvalidHeader) && w.journal.phase.Fresh?)
              || w.journal.phase.Stale?
  {
    hide GoodEntries, AlikeEntries, ReplayFrames, Replay, LogOf, AllDecode, S.OpenStore, C.Sound;
    C.SoundOpens(w.journal);
    if S.OpenStore(w.journal.store).Ok? {
      var frames := S.OpenStore(w.journal.store).value.frames;
      assert OpensToOne(config, frames, w.views);
      ReplayFramesIsReplay(config, map[], frames);
    }
  }

  /** So at every moment of every run at which the directory is up, its disk opens
      to its frames, and the hints from memory are those the reopened directory
      would give, for all claims, routes and revocations. */
  lemma RunHints(config: Config, worlds: seq<World>, events: seq<Event>, i: nat, nodes: seq<NodeId>,
                 revoked: set<NodeId>, claimed: NodeId -> seq<SocketAddr>, routes: Routes)
    requires Run(config, worlds, events) && Safe(config, worlds[0])
    requires i < |worlds| && worlds[i].journal.phase.Up?
    ensures var w := worlds[i];
            && w.memory.Some? && S.OpenStore(w.journal.store) == Ok(S.Opened(w.journal.phase.frames, w.journal.store))
            && ReplayFrames(config, map[], w.journal.phase.frames).Ok?
            && AllHints(w.memory.value, nodes, revoked, claimed, routes, config.limit)
            == AllHints(ReplayFrames(config, map[], w.journal.phase.frames).value, nodes, revoked, claimed, routes, config.limit)
  {
    hide AllHints, GoodEntries, AlikeEntries, Run, ReplayFrames, Replay, LogOf, AllDecode, S.OpenStore, F.Image;
    RunSafe(config, worlds, events);
    var w := worlds[i];
    assert w in worlds;
    var frames := w.journal.phase.frames;
    S.OpenCommitted(frames);
    assert OpensToOne(config, frames, w.views);
    ReplayFramesIsReplay(config, map[], frames);
    AlikeDirectoryHints(config, w.memory.value, ReplayFrames(config, map[], frames).value, nodes, revoked, claimed, routes);
  }

  // ---------- quarantine over runs ----------

  predicate Quarantined(entries: Entries, node: NodeId, current: Contact, evidence: Contact) {
    node in entries && entries[node].current == current && entries[node].conflict == Some(evidence)
  }

  ghost predicate AllQuarantined(views: set<Entries>, node: NodeId, current: Contact, evidence: Contact) {
    forall e :: e in views ==> Quarantined(e, node, current, evidence)
  }

  lemma {:induction false} ApplyAllQuarantine(config: Config, entries: Entries, contacts: seq<Contact>, node: NodeId, current: Contact, evidence: Contact)
    requires Quarantined(entries, node, current, evidence)
    ensures Quarantined(ApplyAll(config, entries, contacts), node, current, evidence)
    decreases |contacts|
  {
    hide Supersede;
    if contacts != [] {
      ApplyAllQuarantine(config, Apply(config, entries, contacts[0]), contacts[1..], node, current, evidence);
    }
  }

  /** What opens after a quarantine was recorded shows it. */
  lemma OpensQuarantined(config: Config, frames: seq<Bytes>, views: set<Entries>, node: NodeId, current: Contact, evidence: Contact)
    requires OpensToOne(config, frames, views) && AllQuarantined(views, node, current, evidence)
    ensures ReplayFrames(config, map[], frames).Ok?
    ensures Quarantined(ReplayFrames(config, map[], frames).value, node, current, evidence)
  {
    hide GoodEntries, ReplayFrames, Replay, LogOf, AllDecode;
    ReplayFramesIsReplay(config, map[], frames);
  }

  lemma StepQuarantine(config: Config, w: World, event: Event, v: World, node: NodeId, current: Contact, evidence: Contact)
    requires Safe(config, w) && Step(config, w, event, v) && AllQuarantined(w.views, node, current, evidence)
    ensures AllQuarantined(v.views, node, current, evidence)
  {
    hide OpensTo, OpensToOne, C.Sound, C.Step, GoodEntries, Quarantined, ApplyAll, Logged, Accepted, CompactsTo, Encodings, ReplayFrames;
    match event
    case Imported(contacts) => ApplyAllQuarantine(config, w.memory.value, contacts, node, current, evidence);
    case ImportCut(contacts) => ApplyAllQuarantine(config, w.memory.value, contacts, node, current, evidence);
    case Reopened =>
      ReopenFinds(w.journal, v.journal);
      OpensQuarantined(config, v.journal.phase.frames, w.views, node, current, evidence);
    case _ =>
  }

  lemma ReopenFinds(s: C.Run, t: C.Run)
    requires C.Sound(s) && C.Step(s, C.Reopened, t)
    ensures t.phase.Up? && t.phase.frames in C.Candidates(s.phase)
  {
    hide S.OpenStore, C.Sound;
    C.SoundOpens(s);
  }

  /** A quarantine, once recorded, outlives imports, compactions, cuts and
      restarts: at every moment it is in memory and in whatever opening can find. */
  lemma {:induction false} QuarantineSurvives(config: Config, worlds: seq<World>, events: seq<Event>, node: NodeId, current: Contact, evidence: Contact)
    requires Run(config, worlds, events) && Safe(config, worlds[0]) && AllQuarantined(worlds[0].views, node, current, evidence)
    ensures forall w :: w in worlds ==>
              && (w.memory.Some? ==> Quarantined(w.memory.value, node, current, evidence))
              && forall f :: f in C.Candidates(w.journal.phase) ==>
                   && ReplayFrames(config, map[], f).Ok?
                   && Quarantined(ReplayFrames(config, map[], f).value, node, current, evidence)
    decreases |events|
  {
    hide Safe, Step, AllQuarantined, Quarantined, ReplayFrames;
    HeldQuarantined(config, worlds[0], node, current, evidence);
    if events == [] {
      assert worlds == [worlds[0]];
    } else {
      StepSafe(config, worlds[0], events[0], worlds[1]);
      StepQuarantine(config, worlds[0], events[0], worlds[1], node, current, evidence);
      assert Run(config, worlds[1..], events[1..]);
      QuarantineSurvives(config, worlds[1..], events[1..], node, current, evidence);
      assert worlds == [worlds[0]] + worlds[1..];
    }
  }

  lemma HeldQuarantined(config: Config, w: World, node: NodeId, current: Contact, evidence: Contact)
    requires Safe(config, w) && AllQuarantined(w.views, node, current, evidence)
    ensures w.memory.Some? ==> Quarantined(w.memory.value, node, current, evidence)
    ensures forall f :: f in C.Candidates(w.journal.phase) ==>
              && ReplayFrames(config, map[], f).Ok?
              && Quarantined(ReplayFrames(config, map[], f).value, node, current, evidence)
  {
    hide OpensTo, C.Sound, GoodEntries, Quarantined, ReplayFrames, C.Candidates;
    forall f | f in C.Candidates(w.journal.phase)
      ensures ReplayFrames(config, map[], f).Ok?
      ensures Quarantined(ReplayFrames(config, map[], f).value, node, current, evidence)
    {
      OpensQuarantined(config, f, w.views, node, current, evidence);
    }
  }

  // ---------- durability ----------

  /** The same peers with the same contacts and evidence. */
  predicate SamePeers(a: Entries, b: Entries) {
    a.Keys == b.Keys && forall n :: n in a ==> a[n].current == b[n].current && a[n].conflict == b[n].conflict
  }

  ghost predicate AllSame(views: set<Entries>, entries: Entries) {
    forall e :: e in views ==> SamePeers(entries, e)
  }

  /** What was acknowledged stays: until the next import, every compaction, cut and
      reopening leaves the same peers in memory and on disk. */
  lemma {:induction false} PeersSurvive(config: Config, worlds: seq<World>, events: seq<Event>, entries: Entries)
    requires Run(config, worlds, events) && Safe(config, worlds[0]) && AllSame(worlds[0].views, entries)
    requires forall e :: e in events ==> !e.Imported? && !e.ImportCut?
    ensures forall w :: w in worlds ==>
              && (w.memory.Some? ==> SamePeers(entries, w.memory.value))
              && forall f :: f in C.Candidates(w.journal.phase) ==>
                   ReplayFrames(config, map[], f).Ok? && SamePeers(entries, ReplayFrames(config, map[], f).value)
    decreases |events|
  {
    hide Safe, Step, AllSame, SamePeers, ReplayFrames;
    HeldSame(config, worlds[0], entries);
    if events == [] {
      assert worlds == [worlds[0]];
    } else {
      assert events[0] in events;
      StepSafe(config, worlds[0], events[0], worlds[1]);
      StepSame(config, worlds[0], events[0], worlds[1], entries);
      assert Run(config, worlds[1..], events[1..]);
      PeersSurvive(config, worlds[1..], events[1..], entries);
      assert worlds == [worlds[0]] + worlds[1..];
    }
  }

  lemma OpensSame(config: Config, frames: seq<Bytes>, views: set<Entries>, entries: Entries)
    requires OpensToOne(config, frames, views) && AllSame(views, entries)
    ensures ReplayFrames(config, map[], frames).Ok? && SamePeers(entries, ReplayFrames(config, map[], frames).value)
  {
    hide GoodEntries, ReplayFrames, Replay, LogOf, AllDecode;
    ReplayFramesIsReplay(config, map[], frames);
  }

  lemma StepSame(config: Config, w: World, event: Event, v: World, entries: Entries)
    requires Safe(config, w) && Step(config, w, event, v) && AllSame(w.views, entries) && !event.Imported? && !event.ImportCut?
    ensures AllSame(v.views, entries)
  {
    hide OpensTo, OpensToOne, C.Sound, C.Step, GoodEntries, SamePeers, CompactsTo, ReplayFrames;
    if event.Reopened? {
      ReopenFinds(w.journal, v.journal);
      OpensSame(config, v.journal.phase.frames, w.views, entries);
    }
  }

  lemma HeldSame(config: Config, w: World, entries: Entries)
    requires Safe(config, w) && AllSame(w.views, entries)
    ensures w.memory.Some? ==> SamePeers(entries, w.memory.value)
    ensures forall f :: f in C.Candidates(w.journal.phase) ==>
              ReplayFrames(config, map[], f).Ok? && SamePeers(entries, ReplayFrames(config, map[], f).value)
  {
    hide OpensTo, C.Sound, GoodEntries, SamePeers, ReplayFrames, C.Candidates;
    forall f | f in C.Candidates(w.journal.phase)
      ensures ReplayFrames(config, map[], f).Ok? && SamePeers(entries, ReplayFrames(config, map[], f).value)
    {
      OpensSame(config, f, w.views, entries);
    }
  }

  // ---------- between compactions ----------

  ghost predicate OpensExactly(config: Config, w: World) {
    && (forall f :: f in C.Candidates(w.journal.phase) ==> exists e :: e in w.views && ReplayFrames(config, map[], f) == Ok(e))
    && (w.memory.Some? ==> ReplayFrames(config, map[], w.held) == Ok(w.memory.value))
  }

  ghost predicate Exact(config: Config, w: World) {
    Safe(config, w) && OpensExactly(config, w)
  }

  /** Without compaction the journal rebuilds the entries of a view exactly, the
      history included; while the directory is up, those in memory. */
  lemma {:induction false} ExactBetweenCompactions(config: Config, worlds: seq<World>, events: seq<Event>)
    requires Run(config, worlds, events) && Exact(config, worlds[0])
    requires forall e :: e in events ==> !e.Compacted? && !e.CompactCut?
    ensures forall w :: w in worlds ==> Exact(config, w)
    decreases |events|
  {
    hide Step, Exact;
    if events == [] {
      assert worlds == [worlds[0]];
    } else {
      assert events[0] in events;
      StepExact(config, worlds[0], events[0], worlds[1]);
      assert Run(config, worlds[1..], events[1..]);
      ExactBetweenCompactions(config, worlds[1..], events[1..]);
      assert worlds == [worlds[0]] + worlds[1..];
    }
  }

  lemma StepExact(config: Config, w: World, event: Event, v: World)
    requires Exact(config, w) && Step(config, w, event, v) && !event.Compacted? && !event.CompactCut?
    ensures Exact(config, v)
  {
    hide Safe, ImportStep, ReopenStep, C.TornOpen, ReplayFrames, S.OpenStore;
    StepSafe(config, w, event, v);
    match event
    case Imported(contacts) => ImportExact(config, w, contacts, v, false);
    case ImportCut(contacts) => ImportExact(config, w, contacts, v, true);
    case Reopened => ReopenExact(config, w, v);
    case Stopped => assert C.Candidates(v.journal.phase) == C.Candidates(w.journal.phase);
    case ReopenCut => assert C.Candidates(v.journal.phase) == C.Candidates(w.journal.phase);
  }

  lemma ReopenExact(config: Config, w: World, v: World)
    requires ReopenStep(config, w, v)
    ensures OpensExactly(config, v)
  {
    hide ReplayFrames, S.OpenStore;
    assert v.memory.value in v.views;
  }

  lemma ImportExact(config: Config, w: World, contacts: seq<Contact>, v: World, cut: bool)
    requires Exact(config, w) && ImportStep(config, w, contacts, v, cut)
    ensures OpensExactly(config, v)
  {
    hide OpensTo, ApplyAll, Logged, Accepted, Encodings, C.Sound, AllEncode, S.Fits, S.Committed, C.TornAppend, C.HashOf, ReplayFrames;
    var m := w.memory.value;
    var batch := Encodings(Logged(config, m, contacts));
    AppendExact(config, w.held, m, contacts);
    assert ApplyAll(config, m, contacts) in v.views;
    forall f | f in C.Candidates(v.journal.phase) ensures exists e :: e in v.views && ReplayFrames(config, map[], f) == Ok(e) {
      if f != w.held + batch {
        assert f in C.Candidates(w.journal.phase);
        var e :| e in w.views && ReplayFrames(config, map[], f) == Ok(e);
        assert e in v.views;
      }
    }
  }

  lemma AppendExact(config: Config, frames: seq<Bytes>, entries: Entries, contacts: seq<Contact>)
    requires ReplayFrames(config, map[], frames) == Ok(entries) && Accepted(config, contacts)
    requires AllEncode(Logged(config, entries, contacts))
    ensures ReplayFrames(config, map[], frames + Encodings(Logged(config, entries, contacts))) == Ok(ApplyAll(config, entries, contacts))
  {
    hide GoodEntries, AlikeEntries, Replay, ApplyAll, Logged, Accepted, LogOf, AllDecode, Encodings, ReplayFrames, AllEncode;
    var batch := Logged(config, entries, contacts);
    ReplayFramesIsReplay(config, map[], frames);
    ReplayAllIsGood(config, LogOf(frames));
    SelfAlike(entries);
    ApplyAllSound(config, entries, entries, LogOf(frames), contacts);
    LogRoundTrip(batch);
    LogConcat(frames, Encodings(batch));
    ReplayFramesIsReplay(config, map[], frames + Encodings(batch));
  }

  // ---------- another history limit ----------

  /** A journal replays under every history limit alike: to the same error, or to
      the same peers. So the limit can be changed between openings. */
  lemma {:induction false} ReplayAnyLimit(config: Config, limit: nat, a: Entries, b: Entries, log: seq<Contact>)
    requires SamePeers(a, b)
    ensures match (Replay(config, a, log), Replay(config.(limit := limit), b, log))
            case (Ok(x), Ok(y)) => SamePeers(x, y)
            case (Err(e), Err(f)) => e == f
            case _ => false
    decreases |log|
  {
    hide ReplayOne, SamePeers;
    if log != [] {
      ReplayOneAnyLimit(config, limit, a, b, log[0]);
      var x, y := ReplayOne(config, a, log[0]), ReplayOne(config.(limit := limit), b, log[0]);
      if x.Ok? {
        ReplayAnyLimit(config, limit, x.value, y.value, log[1..]);
      }
    }
  }

  lemma ReplayOneAnyLimit(config: Config, limit: nat, a: Entries, b: Entries, contact: Contact)
    requires SamePeers(a, b)
    ensures match (ReplayOne(config, a, contact), ReplayOne(config.(limit := limit), b, contact))
            case (Ok(x), Ok(y)) => SamePeers(x, y)
            case (Err(e), Err(f)) => e == f
            case _ => false
  {
    hide Storable, Decide;
    assert |a| == |a.Keys| == |b.Keys| == |b|;
  }

  function Found(config: Config, frames: seq<Bytes>): Entries {
    var replayed := ReplayFrames(config, map[], frames);
    if replayed.Ok? then replayed.value else map[]
  }

  lemma OpensAnyLimit(config: Config, limit: nat, frames: seq<Bytes>, entries: Entries)
    requires OpensTo(config, frames, entries)
    ensures OpensTo(config.(limit := limit), frames, Found(config.(limit := limit), frames))
    ensures SamePeers(entries, Found(config.(limit := limit), frames))
  {
    hide GoodEntries, ReplayFrames, Replay, LogOf, AllDecode;
    ReplayAnyLimit(config, limit, map[], map[], LogOf(frames));
    ReplayFramesIsReplay(config.(limit := limit), map[], frames);
    ReplayOpens(config.(limit := limit), frames);
  }

  lemma OneAnyLimit(config: Config, limit: nat, frames: seq<Bytes>, views: set<Entries>)
    requires OpensToOne(config, frames, views)
    ensures OpensTo(config.(limit := limit), frames, Found(config.(limit := limit), frames))
    ensures exists e :: e in views && SamePeers(e, Found(config.(limit := limit), frames))
  {
    hide OpensTo, SamePeers, Found;
    var e :| e in views && OpensTo(config, frames, e);
    OpensAnyLimit(config, limit, frames, e);
  }

  /** A directory that is down is safe to open with another limit, with the same
      peers in view. */
  lemma SafeAnyLimit(config: Config, limit: nat, w: World) returns (views: set<Entries>)
    requires Safe(config, w) && w.memory.None?
    ensures Safe(config.(limit := limit), w.(views := views))
    ensures forall v :: v in views ==> exists e :: e in w.views && SamePeers(e, v)
  {
    hide OpensTo, OpensToOne, C.Sound, GoodEntries, Found, SamePeers, C.Candidates;
    var config', candidates := config.(limit := limit), C.Candidates(w.journal.phase);
    views := set f | f in candidates :: Found(config', f);
    forall f | f in candidates
      ensures OpensToOne(config', f, views)
      ensures exists e :: e in w.views && SamePeers(e, Found(config', f))
    {
      OneAnyLimit(config, limit, f, w.views);
      IsOne(config', f, Found(config', f), views);
    }
    if w.journal.phase.Fresh? {
      FreshViews(config', w.journal.phase, views);
    }
  }

  lemma IsOne(config: Config, frames: seq<Bytes>, entries: Entries, views: set<Entries>)
    requires entries in views && OpensTo(config, frames, entries)
    ensures OpensToOne(config, frames, views)
  {
    hide OpensTo;
  }

  lemma FreshViews(config: Config, phase: C.Phase, views: set<Entries>)
    requires phase.Fresh? && views == set f | f in C.Candidates(phase) :: Found(config, f)
    ensures views == {map[]}
  {
    hide Found;
    NoFramesFound(config);
    assert [] in C.Candidates(phase);
  }

  lemma NoFramesFound(config: Config)
    ensures Found(config, []) == map[]
  {
  }

  // ---------- leading on ----------

  ghost predicate Leads(config: Config, w: World, v: World) {
    exists worlds, events :: Run(config, worlds, events) && worlds[0] == w && worlds[|events|] == v
  }

  lemma LeadsNowhere(config: Config, w: World)
    ensures Leads(config, w, w)
  {
    hide Step;
    assert Run(config, [w], []);
  }

  lemma LeadsOn(config: Config, w: World, v: World, event: Event, u: World)
    requires Leads(config, w, v) && Step(config, v, event, u)
    ensures Leads(config, w, u)
  {
    hide Step;
    var worlds, events :| Run(config, worlds, events) && worlds[0] == w && worlds[|events|] == v;
    var worlds', events' := worlds + [u], events + [event];
    forall i | 0 <= i < |events'| ensures Step(config, worlds'[i], events'[i], worlds'[i + 1]) {
      if i < |events| {
        assert Step(config, worlds[i], events[i], worlds[i + 1]);
      }
    }
    assert Run(config, worlds', events');
  }

  /** Whatever leads on from a safe world is safe. */
  lemma LeadsSafe(config: Config, w: World, v: World)
    requires Leads(config, w, v) && Safe(config, w)
    ensures Safe(config, v)
  {
    hide Step, Safe;
    var worlds, events :| Run(config, worlds, events) && worlds[0] == w && worlds[|events|] == v;
    RunSafe(config, worlds, events);
    assert worlds[|events|] in worlds;
  }

  lemma LeadsThrough(config: Config, w: World, v: World, u: World)
    requires Leads(config, w, v) && Leads(config, v, u)
    ensures Leads(config, w, u)
  {
    hide Step;
    var a, x :| Run(config, a, x) && a[0] == w && a[|x|] == v;
    var b, y :| Run(config, b, y) && b[0] == v && b[|y|] == u;
    var worlds, events := a + b[1..], x + y;
    forall i | 0 <= i < |events| ensures Step(config, worlds[i], events[i], worlds[i + 1]) {
      if i < |x| {
        assert Step(config, a[i], x[i], a[i + 1]);
      } else {
        assert Step(config, b[i - |x|], y[i - |x|], b[i - |x| + 1]);
      }
    }
    assert Run(config, worlds, events);
  }

  lemma StepLeads(config: Config, w: World, event: Event, v: World)
    requires Safe(config, w) && Step(config, w, event, v)
    ensures Leads(config, w, v) && Safe(config, v)
  {
    hide Leads, Safe, Step;
    StepSafe(config, w, event, v);
    LeadsNowhere(config, w);
    LeadsOn(config, w, w, event, v);
  }
}
