/** Atomic snapshot replacement in `src/snapshot.rs`: temporary file, sync, rename, cleanup,
    where every file-system call may fail and every intermediate directory state is recorded. */
module AtomicReplace {
  import opened Words
  import Envelope

  type Name = string
  type Entries = map<Name, seq<byte>>

  datatype IoError = NotFound | AlreadyExists | NameTooLong | OtherError

  datatype ReplaceError =
    | EncodeFailed(encode: Envelope.SnapshotError)
    | CreateTemporary(cause: IoError)
    | WriteTemporary(cause: IoError)
    | SyncTemporary(cause: IoError)
    | RenameFailed(cause: IoError)
    | CleanupTemporary(cause: IoError, operation: ReplaceError)
    | SyncDirectory(cause: IoError)

  function DestinationWasReplaced(error: ReplaceError): (r: bool) {
    error.SyncDirectory?
  }

  const TEMPORARY_CREATE_ATTEMPTS: nat := 128
  const U32_LIMIT: nat := 0x1_0000_0000

  function Suffix(processId: nat, sequence: nat): (r: Name) {
    ".rusthouse-snapshot-" + Decimal(processId) + "-" + Decimal(sequence) + ".tmp"
  }

  /** The wrapping counter behind the suffixes. */
  function NextSequence(sequence: nat): (r: nat) {
    (sequence + 1) % U32_LIMIT
  }

  /** A suffix written out, and the counter at its end. */
  lemma SuffixWrittenOut()
    ensures Suffix(42, 7) == ".rusthouse-snapshot-42-7.tmp"
    ensures NextSequence(7) == 8 && NextSequence(4294967295) == 0
  {
    DecimalNext(42, "4", '2');
    assert Decimal(4) == "4" && Decimal(7) == "7";
    assert Suffix(42, 7) == ".rusthouse-snapshot-" + "42" + "-" + "7" + ".tmp";
  }

  function Look(entries: Entries, key: Name): (r: Option<seq<byte>>) {
    if key in entries then Some(entries[key]) else None
  }

  // ---------- the file system ----------

  /** What the environment does to one call; a failing write may have stored some bytes. */
  datatype Fate = Proceeds | Fails(cause: IoError, written: nat)

  /** The file system as an open directory sees it. `fold` maps a name to the entry it resolves
      to, so two names are the same entry exactly when they fold alike. `schedule` holds the fates
      of the calls to come, which proceed once it is used up; `history` holds every state the
      directory has had. */
  datatype System = System(fold: Name -> Name, schedule: seq<Fate>, entries: Entries, history: seq<Entries>,
                           nextTemporaryFile: nat, renames: nat)
  {
    function NextFate(): (r: Fate) {
      if schedule == [] then Proceeds else schedule[0]
    }

    function Called(): (r: System) {
      this.(schedule := if schedule == [] then [] else schedule[1..])
    }

    function Becomes(now: Entries): (r: System) {
      this.(entries := now, history := history + [now])
    }

    /** Exclusive creation: it never touches an existing entry. */
    function Create(name: Name): (r: (System, Result<(), IoError>)) {
      match NextFate()
      case Fails(cause, _) => (Called(), Err(cause))
      case Proceeds =>
        if fold(name) in entries then (Called(), Err(AlreadyExists))
        else (Called().Becomes(entries[fold(name) := []]), Ok(()))
    }

    /** Writing stops anywhere on failure; only the named entry changes. */
    function WriteAll(name: Name, bytes: seq<byte>): (r: (System, Result<(), IoError>)) {
      match NextFate()
      case Proceeds => (Called().Becomes(entries[fold(name) := bytes]), Ok(()))
      case Fails(cause, written) =>
        var prefix := bytes[..Min(written, |bytes|)];
        (Called().Becomes(entries[fold(name) := prefix]), if prefix == bytes then Ok(()) else Err(cause))
    }

    /** Durability calls change nothing that is visible. */
    function Sync(): (r: (System, Result<(), IoError>)) {
      (Called(), if NextFate().Fails? then Err(NextFate().cause) else Ok(()))
    }

    /** Whether `name` resolves to the entry that `file` was created as: the status of the open
        file, then that of the entry. An entry reported as not found is taken for another one. */
    function EntryAliasesFile(name: Name, file: Name): (r: (System, Result<bool, IoError>)) {
      match NextFate()
      case Fails(cause, _) => (Called(), Err(cause))
      case Proceeds =>
        var after := Called().Called();
        match Called().NextFate()
        case Fails(NotFound, _) => (after, Ok(false))
        case Fails(cause, _) => (after, Err(cause))
        case Proceeds => (after, Ok(fold(name) in entries && fold(name) == fold(file)))
    }

    function Rename(source: Name, destination: Name): (r: (System, Result<(), IoError>)) {
      match NextFate()
      case Fails(cause, _) => (Called(), Err(cause))
      case Proceeds =>
        if fold(source) !in entries then (Called(), Err(NotFound))
        else
        var moved := (entries - {fold(source)})[fold(destination) := entries[fold(source)]];
        (Called().Becomes(moved).(renames := renames + 1), Ok(()))
    }

    /** Unlinking; `NotFound` stands for an entry that is already gone, and takes it away. */
    function Remove(name: Name): (r: (System, Result<(), IoError>)) {
      match NextFate()
      case Proceeds => (Called().Becomes(entries - {fold(name)}), Ok(()))
      case Fails(NotFound, _) => (Called().Becomes(entries - {fold(name)}), Err(NotFound))
      case Fails(cause, _) => (Called(), Err(cause))
    }
  }

  /** `SnapshotDirectory`: a handle through which the calls reach the file system. */
  class Directory {
    var system: System

    constructor (system: System)
      ensures this.system == system
    {
      this.system := system;
    }

    method Create(name: Name) returns (r: Result<(), IoError>)
      modifies this
      ensures (system, r) == old(system).Create(name)
    {
      var call := system.Create(name);
      system := call.0;
      return call.1;
    }

    method WriteAll(name: Name, bytes: seq<byte>) returns (r: Result<(), IoError>)
      modifies this
      ensures (system, r) == old(system).WriteAll(name, bytes)
    {
      var call := system.WriteAll(name, bytes);
      system := call.0;
      return call.1;
    }

    method Sync() returns (r: Result<(), IoError>)
      modifies this
      ensures (system, r) == old(system).Sync()
    {
      var call := system.Sync();
      system := call.0;
      return call.1;
    }

    method EntryAliasesFile(name: Name, file: Name) returns (r: Result<bool, IoError>)
      modifies this
      ensures (system, r) == old(system).EntryAliasesFile(name, file)
    {
      var call := system.EntryAliasesFile(name, file);
      system := call.0;
      return call.1;
    }

    method Rename(source: Name, destination: Name) returns (r: Result<(), IoError>)
      modifies this
      ensures (system, r) == old(system).Rename(source, destination)
    {
      var call := system.Rename(source, destination);
      system := call.0;
      return call.1;
    }

    method Remove(name: Name) returns (r: Result<(), IoError>)
      modifies this
      ensures (system, r) == old(system).Remove(name)
    {
      var call := system.Remove(name);
      system := call.0;
      return call.1;
    }
  }

  // ---------- the protocol on the file system ----------

  /** Removal where a file already gone counts as removed. */
  function Discarded(s: System, name: Name): (r: (System, Result<(), IoError>)) {
    var (after, removed) := s.Remove(name);
    (after, if removed == Err(NotFound) then Ok(()) else removed)
  }

  /** Removal after a failed operation, whose error it reports. */
  function CleanedUp(s: System, name: Name, operation: ReplaceError): (r: (System, ReplaceError)) {
    var (after, removed) := Discarded(s, name);
    (after, if removed.Err? then CleanupTemporary(removed.error, operation) else operation)
  }

  /** What follows the creation of a candidate: nothing is returned when another must be tried. */
  function Settled(s: System, destination: Name, name: Name, created: Result<(), IoError>)
    : (r: (System, Option<Result<Name, ReplaceError>>))
  {
    match created
    case Err(AlreadyExists) => (s, None)
    case Err(cause) => (s, Some(Err(CreateTemporary(cause))))
    case Ok(_) =>
      var (checked, aliases) := s.EntryAliasesFile(destination, name);
      match aliases
      case Ok(false) => (checked, Some(Ok(name)))
      case Ok(true) =>
        var (after, removed) := Discarded(checked, name);
        (after, if removed.Err? then Some(Err(CleanupTemporary(removed.error, CreateTemporary(AlreadyExists))))
            else None)
      case Err(cause) =>
        var (after, error) := CleanedUp(checked, name, CreateTemporary(cause));
        (after, Some(Err(error)))
  }

  /** One attempt: the destination with a suffix, then, if that is too long, the bare suffix. */
  function Attempt(s: System, destination: Name, processId: nat): (r: (System, Option<Result<Name, ReplaceError>>)) {
    var suffix := Suffix(processId, s.nextTemporaryFile);
    var numbered := s.(nextTemporaryFile := NextSequence(s.nextTemporaryFile));
    var (after, created) := numbered.Create(destination + suffix);
    if created == Err(NameTooLong) then
      if suffix == destination then (after, None)
      else
        var (again, retried) := after.Create(suffix);
        Settled(again, destination, suffix, retried)
    else
      Settled(after, destination, destination + suffix, created)
  }

  /** Up to `attempts` attempts. */
  function Attempts(s: System, destination: Name, processId: nat, attempts: nat)
      : (r: (System, Result<Name, ReplaceError>))
    decreases attempts, destination
  {
    if attempts == 0 then (s, Err(CreateTemporary(AlreadyExists)))
    else
      var (after, outcome) := Attempt(s, destination, processId);
      if outcome.Some? then (after, outcome.value) else Attempts(after, destination, processId, attempts - 1)
  }

  /** Writing, syncing and renaming a created temporary. */
  function Published(s: System, destination: Name, name: Name, envelope: seq<byte>)
      : (r: (System, Result<(), ReplaceError>))
  {
    var (filled, written) := s.WriteAll(name, envelope);
    if written.Err? then Failing(CleanedUp(filled, name, WriteTemporary(written.error)))
    else
      var (durable, synced) := filled.Sync();
      if synced.Err? then Failing(CleanedUp(durable, name, SyncTemporary(synced.error)))
      else
        var (moved, renamed) := durable.Rename(name, destination);
        if renamed.Err? then Failing(CleanedUp(moved, name, RenameFailed(renamed.error)))
        else
          var (done, directorySynced) := moved.Sync();
          (done, if directorySynced.Err? then Err(SyncDirectory(directorySynced.error)) else Ok(()))
  }

  function Failing(cleaned: (System, ReplaceError)): (r: (System, Result<(), ReplaceError>)) {
    (cleaned.0, Err(cleaned.1))
  }

  /** A whole replacement. */
  function Replaced(s: System, destination: Name, processId: nat, envelope: seq<byte>)
      : (r: (System, Result<(), ReplaceError>))
  {
    var (created, temporary) := Attempts(s, destination, processId, TEMPORARY_CREATE_ATTEMPTS);
    if temporary.Err? then (created, Err(temporary.error))
    else Published(created, destination, temporary.value, envelope)
  }

  // ---------- names that alias the destination ----------

  /** A candidate with this suffix would resolve to the destination's entry. */
  predicate Aliasing(fold: Name -> Name, destination: Name, suffix: Name) {
    || fold(destination + suffix) == fold(destination)
    || (suffix != destination && fold(suffix) == fold(destination))
  }

  /** The counter `n` numbers later. */
  function Later(sequence: nat, n: nat): (r: nat)
    decreases n, sequence
  {
    if n == 0 then sequence else Later(NextSequence(sequence), n - 1)
  }

  /** One of the next `attempts` suffixes is aliasing. */
  predicate AliasAhead(fold: Name -> Name, destination: Name, processId: nat, sequence: nat, attempts: nat)
    decreases attempts, destination
  {
    attempts > 0
    && (Aliasing(fold, destination, Suffix(processId, sequence))
        || AliasAhead(fold, destination, processId, NextSequence(sequence), attempts - 1))
  }

  /** The candidate `k` numbers later is aliasing. */
  predicate AliasAt(fold: Name -> Name, destination: Name, processId: nat, sequence: nat, k: nat) {
    Aliasing(fold, destination, Suffix(processId, Later(sequence, k)))
  }

  lemma {:induction false} AliasAheadMeans(fold: Name -> Name, destination: Name, processId: nat, sequence: nat,
      attempts: nat)
    ensures AliasAhead(fold, destination, processId, sequence, attempts)
       <==> exists k: nat :: k < attempts && AliasAt(fold, destination, processId, sequence, k)
    decreases attempts
  {
    hide Aliasing, Suffix, NextSequence;
    if attempts > 0 {
      var next := NextSequence(sequence);
      AliasAheadMeans(fold, destination, processId, next, attempts - 1);
      assert AliasAt(fold, destination, processId, sequence, 0)
          == Aliasing(fold, destination, Suffix(processId, sequence));
      forall k: nat
        ensures AliasAt(fold, destination, processId, sequence, k + 1) == AliasAt(fold, destination, processId, next, k)
      {
      }
      if k: nat :| 0 < k < attempts && AliasAt(fold, destination, processId, sequence, k) {
        assert AliasAt(fold, destination, processId, next, k - 1);
      }
      if j: nat :| j < attempts - 1 && AliasAt(fold, destination, processId, next, j) {
        assert AliasAt(fold, destination, processId, sequence, j + 1);
      }
    }
  }

  /** Some candidate that a replacement in this state may create resolves to the destination. */
  predicate MayAlias(s: System, destination: Name, processId: nat) {
    AliasAhead(s.fold, destination, processId, s.nextTemporaryFile, TEMPORARY_CREATE_ATTEMPTS)
  }

  // ---------- what an absent destination may show ----------

  /** What may stand at an absent destination before the rename: nothing, an empty file, or any
      prefix of the envelope. */
  datatype Exposure = Nothing | EmptyFile | Prefixes

  predicate Exposed(exposure: Exposure, content: seq<byte>, envelope: seq<byte>) {
    match exposure
    case Nothing => false
    case EmptyFile => content == []
    case Prefixes => content <= envelope
  }

  predicate NotFoundFate(fate: Fate) {
    fate.Fails? && fate.cause.NotFound?
  }

  /** No call reports that an entry is not found. */
  predicate Steady(schedule: seq<Fate>) {
    forall i :: 0 <= i < |schedule| ==> !NotFoundFate(schedule[i])
  }

  /** Aliasing exposes an empty file; only a status call that does not find the aliased entry
      lets it be filled. */
  predicate Covers(exposure: Exposure, aliasing: bool, schedule: seq<Fate>) {
    aliasing ==> !exposure.Nothing? && (Steady(schedule) || exposure.Prefixes?)
  }

  /** What a replacement in this state may show. */
  function ExposureOf(s: System, destination: Name, processId: nat): (r: Exposure)
    ensures Covers(r, MayAlias(s, destination, processId), s.schedule)
  {
    if !MayAlias(s, destination, processId) then Nothing
    else if Steady(s.schedule) then EmptyFile
    else Prefixes
  }

  lemma CalledStaysSteady(s: System)
    requires Steady(s.schedule)
    ensures Steady(s.Called().schedule) && !NotFoundFate(s.NextFate())
  {
  }

  // ---------- what creation keeps ----------

  ghost predicate Logged(s: System) {
    s.history != [] && s.history[|s.history| - 1] == s.entries
  }

  /** What an observer of the destination may see in one recorded state of a creation: what it
      was before, or, where that is exposed, an empty file where there was none. */
  ghost predicate Seen(state: Entries, key: Name, before: Entries, exposure: Exposure) {
    || Look(state, key) == Look(before, key)
    || (key !in before && !exposure.Nothing? && Look(state, key) == Some([]))
  }

  ghost predicate AlwaysSeen(history: seq<Entries>, key: Name, before: Entries, exposure: Exposure) {
    forall i :: 0 <= i < |history| ==> Seen(history[i], key, before, exposure)
  }

  /** One extra entry `key`, which did not exist before, and nothing else changed. */
  ghost predicate Extends(before: Entries, now: Entries, key: Name) {
    key !in before && key in now && now == before[key := now[key]]
  }

  /** One extra entry; it is the destination only with contents that may stand there. */
  ghost predicate Added(before: Entries, now: Entries, extra: Name, key: Name, envelope: seq<byte>,
                        exposure: Exposure)
  {
    Extends(before, now, extra) && (extra == key ==> Exposed(exposure, now[extra], envelope))
  }

  /** A temporary file that could not be removed. */
  ghost predicate LeftBehind(before: Entries, now: Entries, key: Name, envelope: seq<byte>, exposure: Exposure) {
    exists extra :: Added(before, now, extra, key, envelope, exposure)
  }

  /** The outcome of a failed replacement before the rename: the directory is as it was, or
      exactly one temporary entry is left and the error says so. */
  ghost predicate RolledBack(error: ReplaceError, before: Entries, now: Entries, key: Name, envelope: seq<byte>,
                             exposure: Exposure)
  {
    && !DestinationWasReplaced(error) && !error.EncodeFailed?
    && if error.CleanupTemporary? then LeftBehind(before, now, key, envelope, exposure) else now == before
  }

  /** A created temporary is a new empty entry. It is the destination's only where a status call
      did not find that entry. */
  ghost predicate Fresh(s: System, name: Name, destination: Name, before: Entries, exposure: Exposure) {
    && name != destination && s.fold(name) !in before && s.entries == before[s.fold(name) := []]
    && (s.fold(name) == s.fold(destination) ==> exposure.Prefixes?)
  }

  /** What one attempt, or several, keep. */
  ghost predicate Kept(s: System, t: System, destination: Name, exposure: Exposure) {
    && Logged(t) && t.fold == s.fold && t.renames == s.renames && (Steady(s.schedule) ==> Steady(t.schedule))
    && (AlwaysSeen(s.history, s.fold(destination), s.entries, exposure)
        ==> AlwaysSeen(t.history, s.fold(destination), s.entries, exposure))
  }

  /** What an attempt that ended with `outcome` did to the entries. No envelope is written yet, so
      only an empty file may stand at an absent destination. */
  ghost predicate Outcome(s: System, t: System, outcome: Option<Result<Name, ReplaceError>>, destination: Name,
                          exposure: Exposure)
  {
    match outcome
    case None => t.entries == s.entries
    case Some(Ok(name)) => Fresh(t, name, destination, s.entries, exposure)
    case Some(Err(error)) => RolledBack(error, s.entries, t.entries, s.fold(destination), [], exposure)
  }

  lemma SeenNext(history: seq<Entries>, state: Entries, key: Name, before: Entries, exposure: Exposure)
    requires Seen(state, key, before, exposure)
    ensures AlwaysSeen(history, key, before, exposure) ==> AlwaysSeen(history + [state], key, before, exposure)
  {
  }

  lemma AddedIsSeen(before: Entries, extra: Name, key: Name, exposure: Exposure)
    requires extra !in before && (extra == key ==> !exposure.Nothing?)
    ensures Seen(before[extra := []], key, before, exposure)
  {
  }

  /** The alias check answers rightly, unless the status of the entry is reported as not found. */
  lemma StatusMeans(s: System, destination: Name, name: Name)
    requires s.fold(name) in s.entries
    ensures var (t, aliases) := s.EntryAliasesFile(destination, name);
      && t == s.(schedule := t.schedule) && (Steady(s.schedule) ==> Steady(t.schedule))
      && (aliases == Ok(true) ==> s.fold(name) == s.fold(destination))
      && (aliases == Ok(false) && s.fold(name) == s.fold(destination) ==> !Steady(s.schedule))
  {
    if Steady(s.schedule) {
      CalledStaysSteady(s);
      CalledStaysSteady(s.Called());
    }
  }

  /** Removing a created temporary restores the directory, or leaves it with exactly that entry. */
  lemma CleanedUpKeeps(s: System, t: System, key: Name, name: Name, operation: ReplaceError, envelope: seq<byte>,
                       exposure: Exposure)
    requires Logged(t) && Added(s.entries, t.entries, t.fold(name), key, envelope, exposure)
    requires !operation.CleanupTemporary? && !DestinationWasReplaced(operation) && !operation.EncodeFailed?
    ensures var (u, error) := CleanedUp(t, name, operation);
      && Logged(u) && u == t.(schedule := u.schedule, entries := u.entries, history := u.history)
      && (Steady(t.schedule) ==> Steady(u.schedule))
      && RolledBack(error, s.entries, u.entries, key, envelope, exposure)
      && (error.CleanupTemporary? ==>
            error.operation == operation && u.entries == t.entries && u.history == t.history)
      && (!error.CleanupTemporary? ==>
            error == operation && u.entries == s.entries && u.history == t.history + [s.entries])
  {
    assert t.entries - {t.fold(name)} == s.entries;
    if Steady(t.schedule) {
      CalledStaysSteady(t);
    }
  }

  /** What follows a candidate that was created. */
  lemma CreatedKeeps(s: System, t: System, destination: Name, name: Name, exposure: Exposure)
    requires name != destination && s.fold(name) !in s.entries && (Steady(s.schedule) ==> Steady(t.schedule))
    requires t == s.Becomes(s.entries[s.fold(name) := []]).(schedule := t.schedule)
    requires Covers(exposure, s.fold(name) == s.fold(destination), s.schedule)
    ensures var (u, outcome) := Settled(t, destination, name, Ok(()));
      && Kept(s, u, destination, exposure) && u.nextTemporaryFile == s.nextTemporaryFile
      && Outcome(s, u, outcome, destination, exposure)
  {
    var key := s.fold(destination);
    var (checked, aliases) := t.EntryAliasesFile(destination, name);
    StatusMeans(t, destination, name);
    hide AlwaysSeen, RolledBack, CleanedUp, Look, Steady, System.EntryAliasesFile;
    AddedIsSeen(s.entries, s.fold(name), key, exposure);
    SeenNext(s.history, t.entries, key, s.entries, exposure);
    SeenNext(t.history, s.entries, key, s.entries, exposure);
    if aliases != Ok(false) {
      var operation := CreateTemporary(if aliases.Err? then aliases.error else AlreadyExists);
      CleanedUpKeeps(s, checked, key, name, operation, [], exposure);
    }
  }

  lemma SettledKeeps(s: System, t: System, destination: Name, name: Name, created: Result<(), IoError>,
                     exposure: Exposure)
    requires Logged(s) && name != destination && (t, created) == s.Create(name)
    requires Covers(exposure, s.fold(name) == s.fold(destination), s.schedule)
    ensures var (u, outcome) := Settled(t, destination, name, created);
      && Kept(s, u, destination, exposure) && u.nextTemporaryFile == s.nextTemporaryFile
      && Outcome(s, u, outcome, destination, exposure)
  {
    if Steady(s.schedule) {
      CalledStaysSteady(s);
    }
    hide AlwaysSeen, Steady;
    if created.Ok? {
      hide Settled, Outcome, Kept, Covers;
      CreatedKeeps(s, t, destination, name, exposure);
    }
  }

  lemma AttemptKeeps(s: System, destination: Name, processId: nat, exposure: Exposure)
    requires Logged(s)
    requires Covers(exposure, Aliasing(s.fold, destination, Suffix(processId, s.nextTemporaryFile)), s.schedule)
    ensures var (t, outcome) := Attempt(s, destination, processId);
      && Kept(s, t, destination, exposure) && t.nextTemporaryFile == NextSequence(s.nextTemporaryFile)
      && Outcome(s, t, outcome, destination, exposure)
  {
    hide Settled, AlwaysSeen, RolledBack, Steady;
    var suffix := Suffix(processId, s.nextTemporaryFile);
    var numbered := s.(nextTemporaryFile := NextSequence(s.nextTemporaryFile));
    var (after, created) := numbered.Create(destination + suffix);
    if Steady(s.schedule) {
      CalledStaysSteady(numbered);
    }
    if created == Err(NameTooLong) {
      if suffix != destination {
        var (again, retried) := after.Create(suffix);
        SettledKeeps(after, again, destination, suffix, retried, exposure);
      }
    } else {
      assert |suffix| > 0;
      SettledKeeps(numbered, after, destination, destination + suffix, created, exposure);
    }
  }

  /** Under every schedule, creation yields a fresh entry or leaves the directory as it was but for
      a temporary that its error admits. */
  lemma {:induction false} AttemptsKeep(s: System, destination: Name, processId: nat, attempts: nat, exposure: Exposure)
    requires Logged(s)
    requires Covers(exposure, AliasAhead(s.fold, destination, processId, s.nextTemporaryFile, attempts), s.schedule)
    ensures var (t, r) := Attempts(s, destination, processId, attempts);
      Kept(s, t, destination, exposure) && Outcome(s, t, Some(r), destination, exposure)
    decreases attempts
  {
    hide Attempt, Aliasing, AlwaysSeen, LeftBehind, Steady;
    if attempts > 0 {
      AttemptKeeps(s, destination, processId, exposure);
      var (after, outcome) := Attempt(s, destination, processId);
      if outcome.None? {
        AttemptsKeep(after, destination, processId, attempts - 1, exposure);
      }
    }
  }

  /** The outcome of a creation that began in `s` with nothing recorded. */
  ghost predicate Creation(s: System, t: System, r: Result<Name, ReplaceError>, destination: Name,
                           exposure: Exposure)
  {
    && t.renames == s.renames && AlwaysSeen(t.history, s.fold(destination), s.entries, exposure)
    && Outcome(s, t, Some(r), destination, exposure)
  }

  lemma CreationIsSafe(s: System, destination: Name, processId: nat)
    requires s.history == [s.entries]
    ensures var (t, r) := Attempts(s, destination, processId, TEMPORARY_CREATE_ATTEMPTS);
      Creation(s, t, r, destination, ExposureOf(s, destination, processId))
  {
    hide Attempts, AliasAhead, Outcome;
    AttemptsKeep(s, destination, processId, TEMPORARY_CREATE_ATTEMPTS, ExposureOf(s, destination, processId));
  }

  // ---------- the limit on attempts ----------

  /** The next `n` attempts all end in a collision. */
  predicate Collide(s: System, destination: Name, processId: nat, n: nat)
    decreases n, destination
  {
    n == 0
    || (Attempt(s, destination, processId).1.None?
        && Collide(Attempt(s, destination, processId).0, destination, processId, n - 1))
  }

  /** Creation gives up exactly when every attempt collides, and otherwise stops at the first one
      that does not; each attempt takes one number. */
  ghost predicate Limited(s: System, t: System, r: Result<Name, ReplaceError>, destination: Name, processId: nat,
      attempts: nat)
  {
    if Collide(s, destination, processId, attempts) then
      && r == Err(CreateTemporary(AlreadyExists)) && t.entries == s.entries
      && t.nextTemporaryFile == Later(s.nextTemporaryFile, attempts)
    else
      exists n: nat :: n < attempts && Collide(s, destination, processId, n)
        && !Collide(s, destination, processId, n + 1) && t.nextTemporaryFile == Later(s.nextTemporaryFile, n + 1)
  }

  lemma {:induction false} AttemptsAreLimited(s: System, destination: Name, processId: nat, attempts: nat)
    requires Logged(s)
    ensures var (t, r) := Attempts(s, destination, processId, attempts);
      Limited(s, t, r, destination, processId, attempts)
    decreases attempts
  {
    hide Attempt, NextSequence;
    if attempts > 0 {
      AttemptKeeps(s, destination, processId, Prefixes);
      var (after, outcome) := Attempt(s, destination, processId);
      var next := NextSequence(s.nextTemporaryFile);
      if outcome.Some? {
        assert Collide(s, destination, processId, 0) && !Collide(s, destination, processId, 1);
        assert Later(s.nextTemporaryFile, 1) == Later(next, 0);
      } else {
        AttemptsAreLimited(after, destination, processId, attempts - 1);
        if !Collide(s, destination, processId, attempts) {
          var n: nat :| n < attempts - 1 && Collide(after, destination, processId, n)
            && !Collide(after, destination, processId, n + 1)
            && Attempts(s, destination, processId, attempts).0.nextTemporaryFile == Later(next, n + 1);
          assert Collide(s, destination, processId, n + 1) && !Collide(s, destination, processId, n + 2);
          assert Later(s.nextTemporaryFile, n + 2) == Later(next, n + 1);
        }
      }
    }
  }

  // ---------- what a replacement keeps ----------

  /** In one recorded state the destination holds what it did before or the new envelope; an
      absent destination may hold what is exposed. */
  ghost predicate Visible(state: Entries, key: Name, before: Entries, envelope: seq<byte>, exposure: Exposure) {
    || Look(state, key) == Look(before, key)
    || Look(state, key) == Some(envelope)
    || (key !in before && key in state && Exposed(exposure, state[key], envelope))
  }

  ghost predicate AlwaysVisible(history: seq<Entries>, key: Name, before: Entries, envelope: seq<byte>,
                                exposure: Exposure)
  {
    forall i :: 0 <= i < |history| ==> Visible(history[i], key, before, envelope, exposure)
  }

  lemma VisibleNext(history: seq<Entries>, state: Entries, key: Name, before: Entries, envelope: seq<byte>,
                    exposure: Exposure)
    requires AlwaysVisible(history, key, before, envelope, exposure) && Visible(state, key, before, envelope, exposure)
    ensures AlwaysVisible(history + [state], key, before, envelope, exposure)
  {
  }

  /** Success, and the one error after the rename, changed exactly the destination; every other
      error rolled back. */
  ghost predicate Ended(t: System, r: Result<(), ReplaceError>, key: Name, before: Entries, renames: nat,
                        envelope: seq<byte>, exposure: Exposure)
  {
    if r.Ok? || DestinationWasReplaced(r.error) then
      t.entries == before[key := envelope] && t.renames == renames + 1
    else
      RolledBack(r.error, before, t.entries, key, envelope, exposure) && t.renames == renames
  }

  lemma FailingKeeps(s: System, t: System, destination: Name, name: Name, operation: ReplaceError,
                     envelope: seq<byte>, exposure: Exposure)
    requires Logged(t) && t.fold == s.fold && t.renames == s.renames
    requires Added(s.entries, t.entries, s.fold(name), s.fold(destination), envelope, exposure)
    requires AlwaysVisible(t.history, s.fold(destination), s.entries, envelope, exposure)
    requires operation.WriteTemporary? || operation.SyncTemporary? || operation.RenameFailed?
    ensures var (u, r) := Failing(CleanedUp(t, name, operation));
      && u.fold == s.fold && AlwaysVisible(u.history, s.fold(destination), s.entries, envelope, exposure)
      && Ended(u, r, s.fold(destination), s.entries, s.renames, envelope, exposure)
  {
    hide AlwaysVisible, CleanedUp, RolledBack, Steady;
    CleanedUpKeeps(s, t, s.fold(destination), name, operation, envelope, exposure);
    if !CleanedUp(t, name, operation).1.CleanupTemporary? {
      VisibleNext(t.history, s.entries, s.fold(destination), s.entries, envelope, exposure);
    }
  }

  /** Writing into a created temporary never shows more than is exposed. */
  lemma FilledKeeps(s: System, c: System, destination: Name, name: Name, envelope: seq<byte>, exposure: Exposure)
    requires c.fold == s.fold && Fresh(c, name, destination, s.entries, exposure)
    ensures var (t, written) := c.WriteAll(name, envelope);
      var extra, key := s.fold(name), s.fold(destination);
      && t == c.(schedule := t.schedule, entries := t.entries, history := c.history + [t.entries])
      && Added(s.entries, t.entries, extra, key, envelope, exposure)
      && Visible(t.entries, key, s.entries, envelope, exposure)
      && (written.Ok? ==> t.entries == s.entries[extra := envelope])
  {
  }

  lemma PublishedKeeps(s: System, c: System, destination: Name, name: Name, envelope: seq<byte>, exposure: Exposure)
    requires Logged(c) && c.fold == s.fold && c.renames == s.renames
    requires Fresh(c, name, destination, s.entries, exposure)
    requires AlwaysVisible(c.history, s.fold(destination), s.entries, envelope, exposure)
    ensures var (t, r) := Published(c, destination, name, envelope);
      && t.fold == s.fold && AlwaysVisible(t.history, s.fold(destination), s.entries, envelope, exposure)
      && Ended(t, r, s.fold(destination), s.entries, s.renames, envelope, exposure)
  {
    hide AlwaysVisible, CleanedUp, RolledBack, Failing, System.WriteAll, Visible, Added;
    var key, extra := s.fold(destination), s.fold(name);
    var (filled, written) := c.WriteAll(name, envelope);
    FilledKeeps(s, c, destination, name, envelope, exposure);
    VisibleNext(c.history, filled.entries, key, s.entries, envelope, exposure);
    if written.Err? {
      FailingKeeps(s, filled, destination, name, WriteTemporary(written.error), envelope, exposure);
    } else {
      var (durable, synced) := filled.Sync();
      if synced.Err? {
        FailingKeeps(s, durable, destination, name, SyncTemporary(synced.error), envelope, exposure);
      } else {
        var (moved, renamed) := durable.Rename(name, destination);
        if renamed.Err? {
          FailingKeeps(s, moved, destination, name, RenameFailed(renamed.error), envelope, exposure);
        } else {
          assert moved.entries == s.entries[key := envelope];
          EnvelopeIsVisible(s.entries, key, envelope, exposure);
          VisibleNext(durable.history, moved.entries, key, s.entries, envelope, exposure);
        }
      }
    }
  }

  lemma EnvelopeIsVisible(before: Entries, key: Name, envelope: seq<byte>, exposure: Exposure)
    ensures Visible(before[key := envelope], key, before, envelope, exposure)
  {
  }

  lemma SeenIsVisible(history: seq<Entries>, key: Name, before: Entries, envelope: seq<byte>, exposure: Exposure)
    requires AlwaysSeen(history, key, before, exposure)
    ensures AlwaysVisible(history, key, before, envelope, exposure)
  {
  }

  lemma EmptyLeftBehind(before: Entries, now: Entries, key: Name, envelope: seq<byte>, exposure: Exposure)
    requires LeftBehind(before, now, key, [], exposure)
    ensures LeftBehind(before, now, key, envelope, exposure)
  {
    var extra :| Added(before, now, extra, key, [], exposure);
    assert Added(before, now, extra, key, envelope, exposure);
  }

  /** Under every schedule of failures, every recorded state shows the destination's old contents,
      the complete envelope, or what is exposed of an absent destination, and the outcome tells
      what remains. */
  lemma ReplacedKeeps(s: System, destination: Name, processId: nat, envelope: seq<byte>, exposure: Exposure)
    requires s.history == [s.entries] && Covers(exposure, MayAlias(s, destination, processId), s.schedule)
    ensures var (t, r) := Replaced(s, destination, processId, envelope);
      && t.fold == s.fold && AlwaysVisible(t.history, s.fold(destination), s.entries, envelope, exposure)
      && Ended(t, r, s.fold(destination), s.entries, s.renames, envelope, exposure)
  {
    hide Attempts, Published, AliasAhead, LeftBehind, AlwaysVisible, Steady;
    AttemptsKeep(s, destination, processId, TEMPORARY_CREATE_ATTEMPTS, exposure);
    var (c, temporary) := Attempts(s, destination, processId, TEMPORARY_CREATE_ATTEMPTS);
    SeenIsVisible(c.history, s.fold(destination), s.entries, envelope, exposure);
    if temporary.Ok? {
      PublishedKeeps(s, c, destination, temporary.value, envelope, exposure);
    } else if temporary.error.CleanupTemporary? {
      EmptyLeftBehind(s.entries, c.entries, s.fold(destination), envelope, exposure);
    }
  }

  // ---------- when a replacement succeeds, and what its errors mean ----------

  /** No call fails. */
  predicate Uneventful(schedule: seq<Fate>) {
    forall i :: 0 <= i < |schedule| ==> schedule[i].Proceeds?
  }

  /** The destination with this suffix is a new entry, and not the destination's. */
  predicate Usable(fold: Name -> Name, entries: Entries, destination: Name, suffix: Name) {
    fold(destination + suffix) !in entries && fold(destination + suffix) != fold(destination)
  }

  /** One of the next `attempts` suffixes is usable. */
  predicate UsableAhead(fold: Name -> Name, entries: Entries, destination: Name, processId: nat, sequence: nat,
                        attempts: nat)
    decreases attempts, destination
  {
    attempts > 0
    && (Usable(fold, entries, destination, Suffix(processId, sequence))
        || UsableAhead(fold, entries, destination, processId, NextSequence(sequence), attempts - 1))
  }

  /** A file under a new name that is not the destination's. */
  ghost predicate Temporary(s: System, t: System, name: Name, destination: Name) {
    && t.fold == s.fold && t.renames == s.renames && Uneventful(t.schedule)
    && s.fold(name) !in s.entries && s.fold(name) != s.fold(destination)
    && t.entries == s.entries[s.fold(name) := []]
  }

  lemma CallsStayUneventful(s: System)
    requires Uneventful(s.schedule)
    ensures s.NextFate().Proceeds? && Uneventful(s.Called().schedule)
  {
  }

  lemma UneventfulAttempt(s: System, destination: Name, processId: nat)
    requires Uneventful(s.schedule)
    ensures var (t, outcome) := Attempt(s, destination, processId);
      if Usable(s.fold, s.entries, destination, Suffix(processId, s.nextTemporaryFile)) then
        outcome.Some? && outcome.value.Ok? && Temporary(s, t, outcome.value.value, destination)
      else
        && outcome.None? && t.entries == s.entries && t.fold == s.fold && t.renames == s.renames
        && t.nextTemporaryFile == NextSequence(s.nextTemporaryFile) && Uneventful(t.schedule)
  {
    hide Suffix, NextSequence, Uneventful;
    var numbered := s.(nextTemporaryFile := NextSequence(s.nextTemporaryFile));
    var name := destination + Suffix(processId, s.nextTemporaryFile);
    CallsStayUneventful(numbered);
    var (t, created) := numbered.Create(name);
    CallsStayUneventful(t);
    CallsStayUneventful(t.Called());
    CallsStayUneventful(t.Called().Called());
    assert created.Ok? ==> t.entries - {s.fold(name)} == s.entries;
  }

  lemma {:induction false} UneventfulAttempts(s: System, destination: Name, processId: nat, attempts: nat)
    requires Uneventful(s.schedule)
    ensures var (t, r) := Attempts(s, destination, processId, attempts);
      if UsableAhead(s.fold, s.entries, destination, processId, s.nextTemporaryFile, attempts) then
        r.Ok? && Temporary(s, t, r.value, destination)
      else
        r == Err(CreateTemporary(AlreadyExists)) && t.entries == s.entries
    decreases attempts
  {
    hide Attempt, Usable, NextSequence, Suffix, Uneventful;
    if attempts > 0 {
      UneventfulAttempt(s, destination, processId);
      var (after, outcome) := Attempt(s, destination, processId);
      if outcome.None? {
        UneventfulAttempts(after, destination, processId, attempts - 1);
      }
    }
  }

  /** The fate of the call after `k` more. */
  function FateAt(schedule: seq<Fate>, k: nat): (r: Fate) {
    if k < |schedule| then schedule[k] else Proceeds
  }

  /** Whether the removal that follows a failed operation fails as well. */
  function AfterRemoval(fate: Fate, operation: ReplaceError): (r: ReplaceError) {
    if fate.Fails? && fate.cause != NotFound then CleanupTemporary(fate.cause, operation) else operation
  }

  /** What the next four fates make of a created temporary: they are the fates of the write, the
      sync, the rename and the directory sync, and the one after the first failure before the
      rename is that of the removal. */
  function Verdict(schedule: seq<Fate>, envelope: seq<byte>): (r: Result<(), ReplaceError>) {
    var write, sync, rename, directorySync :=
      FateAt(schedule, 0), FateAt(schedule, 1), FateAt(schedule, 2), FateAt(schedule, 3);
    if write.Fails? && write.written < |envelope| then Err(AfterRemoval(sync, WriteTemporary(write.cause)))
    else if sync.Fails? then Err(AfterRemoval(rename, SyncTemporary(sync.cause)))
    else if rename.Fails? then Err(AfterRemoval(directorySync, RenameFailed(rename.cause)))
    else if directorySync.Fails? then Err(SyncDirectory(directorySync.cause))
    else Ok(())
  }

  lemma FatesInOrder(s: System)
    ensures forall k: nat :: FateAt(s.Called().schedule, k) == FateAt(s.schedule, k + 1)
    ensures s.NextFate() == FateAt(s.schedule, 0)
  {
  }

  /** What the fates from `k` on make of one candidate: they are the fates of its creation, of the
      status calls on the file and on the entry, and of its removal. Nothing is returned when the
      candidate collides. */
  function CandidateVerdict(s: System, destination: Name, name: Name, k: nat): (r: Option<Result<Name, ReplaceError>>) {
    var create, file, entry, remove :=
      FateAt(s.schedule, k), FateAt(s.schedule, k + 1), FateAt(s.schedule, k + 2), FateAt(s.schedule, k + 3);
    if create.Fails? then
      if create.cause == AlreadyExists then None else Some(Err(CreateTemporary(create.cause)))
    else if s.fold(name) in s.entries then None
    else if file.Fails? then Some(Err(AfterRemoval(entry, CreateTemporary(file.cause))))
    else if entry.Fails? then
      if entry.cause == NotFound then Some(Ok(name)) else Some(Err(AfterRemoval(remove, CreateTemporary(entry.cause))))
    else if s.fold(name) != s.fold(destination) then Some(Ok(name))
    else if remove.Fails? && remove.cause != NotFound then
      Some(Err(CleanupTemporary(remove.cause, CreateTemporary(AlreadyExists))))
    else None
  }

  lemma SettledFollowsFates(s: System, destination: Name, name: Name)
    ensures var (t, created) := s.Create(name);
      Settled(t, destination, name, created).1 == CandidateVerdict(s, destination, name, 0)
  {
    FatesInOrder(s);
    FatesInOrder(s.Called());
    FatesInOrder(s.Called().Called());
    FatesInOrder(s.Called().Called().Called());
  }

  /** An attempt that is refused the long name goes on with the bare suffix; each of its errors
      means that its own call failed. */
  lemma AttemptFollowsFates(s: System, destination: Name, processId: nat)
    ensures var suffix := Suffix(processId, s.nextTemporaryFile);
      var tooLong := FateAt(s.schedule, 0).Fails? && FateAt(s.schedule, 0).cause == NameTooLong;
      Attempt(s, destination, processId).1
      == if !tooLong then CandidateVerdict(s, destination, destination + suffix, 0)
         else if suffix == destination then None
         else CandidateVerdict(s, destination, suffix, 1)
  {
    hide Settled, Suffix, NextSequence;
    var suffix := Suffix(processId, s.nextTemporaryFile);
    var numbered := s.(nextTemporaryFile := NextSequence(s.nextTemporaryFile));
    FatesInOrder(numbered);
    SettledFollowsFates(numbered, destination, destination + suffix);
    SettledFollowsFates(numbered.Called(), destination, suffix);
  }

  /** Each error of a created temporary's publication means that its own call failed, and none
      before it. */
  lemma PublicationFollowsFates(s: System, destination: Name, name: Name, envelope: seq<byte>)
    requires s.fold(name) in s.entries
    ensures Published(s, destination, name, envelope).1 == Verdict(s.schedule, envelope)
  {
    FatesInOrder(s);
    FatesInOrder(s.Called());
    FatesInOrder(s.Called().Called());
  }

  /** Without an error before the directory sync the destination holds the envelope. */
  lemma PublicationReplaces(s: System, destination: Name, name: Name, envelope: seq<byte>)
    ensures var (t, r) := Published(s, destination, name, envelope);
      r.Ok? || r.error.SyncDirectory? ==>
        && t.entries == (s.entries - {s.fold(name)})[s.fold(destination) := envelope]
        && t.renames == s.renames + 1
  {
  }

  /** Some candidate within the limit is usable. */
  predicate MaySucceed(s: System, destination: Name, processId: nat) {
    UsableAhead(s.fold, s.entries, destination, processId, s.nextTemporaryFile, 128)
  }

  /** When no call fails, a replacement succeeds exactly when a candidate within the limit is
      usable; then the destination, and nothing else, is replaced. */
  lemma UneventfulReplacement(s: System, destination: Name, processId: nat, envelope: seq<byte>)
    requires Uneventful(s.schedule)
    ensures var (t, r) := Replaced(s, destination, processId, envelope);
      var usable := MaySucceed(s, destination, processId);
      && (r.Ok? <==> usable)
      && (usable ==> t.entries == s.entries[s.fold(destination) := envelope] && t.renames == s.renames + 1)
      && (!usable ==> r == Err(CreateTemporary(AlreadyExists)) && t.entries == s.entries)
  {
    hide Attempts, UsableAhead, Published;
    UneventfulAttempts(s, destination, processId, TEMPORARY_CREATE_ATTEMPTS);
    var (c, temporary) := Attempts(s, destination, processId, TEMPORARY_CREATE_ATTEMPTS);
    if temporary.Ok? {
      PublicationFollowsFates(c, destination, temporary.value, envelope);
      PublicationReplaces(c, destination, temporary.value, envelope);
    }
  }

  /** Under every schedule, an error means that some call failed or that no candidate within the
      limit was usable. */
  lemma ErrorsHaveACause(s: System, destination: Name, processId: nat, envelope: seq<byte>)
    requires Replaced(s, destination, processId, envelope).1.Err?
    ensures (exists i :: 0 <= i < |s.schedule| && s.schedule[i].Fails?) || !MaySucceed(s, destination, processId)
  {
    hide Replaced, MaySucceed;
    if Uneventful(s.schedule) {
      UneventfulReplacement(s, destination, processId, envelope);
    }
  }

  // ---------- the methods of the source ----------

  /** `TemporarySnapshot::discard`. */
  method Discard(directory: Directory, name: Name) returns (r: Result<(), IoError>)
    modifies directory
    ensures (directory.system, r) == Discarded(old(directory.system), name)
  {
    r := directory.Remove(name);
    if r.Err? && r.error == NotFound {
      r := Ok(());
    }
  }

  /** `TemporarySnapshot::cleanup`: reports the operation's error, wrapped if removal fails. */
  method Cleanup(directory: Directory, name: Name, operation: ReplaceError) returns (error: ReplaceError)
    requires !operation.CleanupTemporary?
    modifies directory
    ensures (directory.system, error) == CleanedUp(old(directory.system), name, operation)
    ensures error == operation || (error.CleanupTemporary? && error.operation == operation)
    ensures error == operation ==>
      directory.system.entries == old(directory.system.entries) - {directory.system.fold(name)}
    ensures error != operation ==> directory.system.entries == old(directory.system.entries)
  {
    var removed := Discard(directory, name);
    error := if removed.Err? then CleanupTemporary(removed.error, operation) else operation;
  }

  /** `create_temporary_snapshot_with_counter`. */
  method CreateTemporarySnapshot(directory: Directory, destination: Name, processId: nat)
    returns (r: Result<Name, ReplaceError>)
    requires directory.system.history == [directory.system.entries]
    modifies directory
    ensures (directory.system, r) == Attempts(old(directory.system), destination, processId, TEMPORARY_CREATE_ATTEMPTS)
    // with any call failing: a fresh entry, or everything rolled back
    ensures Creation(old(directory.system), directory.system, r, destination,
                     ExposureOf(old(directory.system), destination, processId))
    // it gives up after exactly 128 collisions, and takes one number for each attempt
    ensures Limited(old(directory.system), directory.system, r, destination, processId, 128)
  {
    hide Suffix, NextSequence, Creation, Limited, ExposureOf, Discarded, CleanedUp;
    hide System.Create, System.EntryAliasesFile, System.Remove, System.NextFate, System.Called, System.Becomes;
    ghost var whole := Attempts(directory.system, destination, processId, TEMPORARY_CREATE_ATTEMPTS);
    CreationIsSafe(directory.system, destination, processId);
    AttemptsAreLimited(directory.system, destination, processId, TEMPORARY_CREATE_ATTEMPTS);
    for attempt := 0 to TEMPORARY_CREATE_ATTEMPTS
      invariant whole == Attempts(directory.system, destination, processId, TEMPORARY_CREATE_ATTEMPTS - attempt)
    {
      var sequence := directory.system.nextTemporaryFile;
      directory.system := directory.system.(nextTemporaryFile := NextSequence(sequence));
      var suffix := Suffix(processId, sequence);
      var name := destination + suffix;
      var created := directory.Create(name);
      if created.Err? && created.error == NameTooLong {
        if suffix == destination {
          continue;
        }
        name := suffix;
        created := directory.Create(name);
      }
      if created.Err? {
        if created.error == AlreadyExists {
          continue;
        }
        return Err(CreateTemporary(created.error));
      }
      var aliases := directory.EntryAliasesFile(destination, name);
      match aliases {
        case Ok(false) =>
          return Ok(name);
        case Ok(true) =>
          var discarded := Discard(directory, name);
          if discarded.Err? {
            return Err(CleanupTemporary(discarded.error, CreateTemporary(AlreadyExists)));
          }
        case Err(cause) =>
          var error := Cleanup(directory, name, CreateTemporary(cause));
          return Err(error);
      }
    }
    return Err(CreateTemporary(AlreadyExists));
  }

  /** `replace_envelope_in_directory`. */
  method ReplaceEnvelope(directory: Directory, destination: Name, processId: nat, envelope: seq<byte>)
    returns (r: Result<(), ReplaceError>)
    requires directory.system.history == [directory.system.entries]
    modifies directory
    ensures (directory.system, r) == Replaced(old(directory.system), destination, processId, envelope)
    // at every moment the destination holds its old contents or the complete new envelope, but for
    // what is exposed of an absent destination
    ensures AlwaysVisible(directory.system.history, old(directory.system).fold(destination),
                          old(directory.system).entries, envelope,
                          ExposureOf(old(directory.system), destination, processId))
    // success, and the one error after the rename, changed exactly the destination
    ensures Ended(directory.system, r, old(directory.system).fold(destination), old(directory.system).entries,
                  old(directory.system).renames, envelope, ExposureOf(old(directory.system), destination, processId))
    // when no call fails, it succeeds exactly when a candidate within the limit is usable
    ensures Uneventful(old(directory.system).schedule) ==>
      (r.Ok? <==> MaySucceed(old(directory.system), destination, processId))
  {
    if Uneventful(directory.system.schedule) {
      UneventfulReplacement(directory.system, destination, processId, envelope);
    }
    hide MaySucceed, Uneventful, Attempts, ExposureOf, MayAlias, Covers, Creation, Limited, AlwaysVisible, Ended;
    hide CleanedUp;
    hide System.WriteAll, System.Sync, System.Rename, System.Remove, System.NextFate, System.Called, System.Becomes;
    ReplacedKeeps(directory.system, destination, processId, envelope,
                  ExposureOf(directory.system, destination, processId));
    var temporary := CreateTemporarySnapshot(directory, destination, processId);
    if temporary.Err? {
      return Err(temporary.error);
    }
    var name := temporary.value;
    var written := directory.WriteAll(name, envelope);
    if written.Err? {
      var error := Cleanup(directory, name, WriteTemporary(written.error));
      return Err(error);
    }
    var synced := directory.Sync();
    if synced.Err? {
      var error := Cleanup(directory, name, SyncTemporary(synced.error));
      return Err(error);
    }
    var renamed := directory.Rename(name, destination);
    if renamed.Err? {
      var error := Cleanup(directory, name, RenameFailed(renamed.error));
      return Err(error);
    }
    var directorySynced := directory.Sync();
    if directorySynced.Err? {
      return Err(SyncDirectory(directorySynced.error));
    }
    return Ok(());
  }

  /** A reader finds what was there before, or an envelope that decodes to the payload. */
  ghost predicate OldOrNew(state: Entries, key: Name, before: Entries, maxPayloadLen: usize, payload: seq<byte>) {
    || Look(state, key) == Look(before, key)
    || (key in state && |state[key]| < U64_LIMIT && Envelope.DecodeOutcome(maxPayloadLen, state[key]) == Ok(payload))
  }

  /** `SnapshotCodec::replace_file` on an open directory: encoding comes before any access, and
      a replaced destination decodes to the payload. */
  method ReplaceFile(directory: Directory, destination: Name, processId: nat, maxPayloadLen: usize, payload: seq<byte>)
    returns (r: Result<(), ReplaceError>)
    requires directory.system.history == [directory.system.entries] && |payload| < U64_LIMIT
    modifies directory
    ensures r.Err? && r.error.EncodeFailed? <==> Envelope.EncodeOutcome(maxPayloadLen, payload).Err?
    ensures Envelope.EncodeOutcome(maxPayloadLen, payload).Err? ==>
      r == Err(EncodeFailed(Envelope.EncodeOutcome(maxPayloadLen, payload).error))
    ensures r.Err? && r.error.EncodeFailed? ==> directory.system == old(directory.system)
    ensures r.Ok? || DestinationWasReplaced(r.error) ==>
      var entries, key := directory.system.entries, old(directory.system).fold(destination);
      && key in entries && entries == old(directory.system).entries[key := entries[key]]
      && |entries[key]| < U64_LIMIT && Envelope.DecodeOutcome(maxPayloadLen, entries[key]) == Ok(payload)
    ensures var s := old(directory.system);
      s.fold(destination) in s.entries || !MayAlias(s, destination, processId) ==>
        forall i :: 0 <= i < |directory.system.history| ==>
          OldOrNew(directory.system.history[i], s.fold(destination), s.entries, maxPayloadLen, payload)
    ensures var s := old(directory.system);
      Envelope.EncodeOutcome(maxPayloadLen, payload).Ok? && Uneventful(s.schedule) ==>
        (r.Ok? <==> MaySucceed(s, destination, processId))
  {
    hide Uneventful, MaySucceed, Replaced, MayAlias, Envelope.DecodeOutcome;
    var envelope := Envelope.Encode(maxPayloadLen, payload);
    if envelope.Err? {
      return Err(EncodeFailed(envelope.error));
    }
    Envelope.DecodeOfEncode(maxPayloadLen, payload);
    r := ReplaceEnvelope(directory, destination, processId, envelope.value);
    VisibleIsOldOrNew(directory.system.history, old(directory.system).fold(destination), old(directory.system).entries,
                      envelope.value, maxPayloadLen, payload,
                      ExposureOf(old(directory.system), destination, processId));
  }

  lemma VisibleIsOldOrNew(history: seq<Entries>, key: Name, before: Entries, envelope: seq<byte>,
                          maxPayloadLen: usize, payload: seq<byte>, exposure: Exposure)
    requires |envelope| < U64_LIMIT && Envelope.DecodeOutcome(maxPayloadLen, envelope) == Ok(payload)
    requires AlwaysVisible(history, key, before, envelope, exposure)
    ensures key in before || exposure.Nothing? ==>
      forall i :: 0 <= i < |history| ==> OldOrNew(history[i], key, before, maxPayloadLen, payload)
  {
  }

  // ---------- exactly when a replacement is atomic ----------

  function Start(fold: Name -> Name, schedule: seq<Fate>, entries: Entries, sequence: nat): (r: System) {
    System(fold, schedule, entries, [entries], sequence, 0)
  }

  /** A schedule that refuses the candidates before the first aliasing one, lets that one be
      created, and goes on with `rest`. */
  function AliasSchedule(fold: Name -> Name, destination: Name, processId: nat, sequence: nat, attempts: nat,
                         rest: seq<Fate>): (r: seq<Fate>)
    requires AliasAhead(fold, destination, processId, sequence, attempts)
    decreases attempts, destination
  {
    var suffix := Suffix(processId, sequence);
    if fold(destination + suffix) == fold(destination) then [Proceeds] + rest
    else if Aliasing(fold, destination, suffix) then [Fails(NameTooLong, 0)] + ([Proceeds] + rest)
    else
      [Fails(AlreadyExists, 0)]
      + AliasSchedule(fold, destination, processId, NextSequence(sequence), attempts - 1, rest)
  }

  /** Both status calls succeed, and the alias cannot be removed. */
  const ALIAS_REMAINS: seq<Fate> := [Proceeds, Proceeds, Fails(OtherError, 0)]

  /** The entry's status is reported as not found, the write stops after `n` bytes, and the
      alias cannot be removed. */
  function AliasFilled(n: nat): (r: seq<Fate>) {
    [Proceeds, Fails(NotFound, 0), Fails(OtherError, n), Fails(OtherError, 0)]
  }

  /** `t` is `s` after an alias of its absent destination was created as `name`. */
  ghost predicate AliasCreated(s: System, t: System, destination: Name, name: Name, rest: seq<Fate>) {
    && t.fold == s.fold && t.schedule == rest && t.fold(name) == s.fold(destination)
    && t.entries == s.entries[s.fold(destination) := []] && Logged(t)
  }

  lemma AliasIsCreated(s: System, destination: Name, processId: nat, rest: seq<Fate>) returns (t: System, name: Name)
    requires Aliasing(s.fold, destination, Suffix(processId, s.nextTemporaryFile))
    requires s.schedule == AliasSchedule(s.fold, destination, processId, s.nextTemporaryFile, 1, rest)
    requires s.fold(destination) !in s.entries
    ensures AliasCreated(s, t, destination, name, rest)
    ensures Attempt(s, destination, processId) == Settled(t, destination, name, Ok(()))
  {
    hide Settled, Suffix, NextSequence;
    var suffix := Suffix(processId, s.nextTemporaryFile);
    var numbered := s.(nextTemporaryFile := NextSequence(s.nextTemporaryFile));
    ConsParts(Proceeds, rest);
    if s.fold(destination + suffix) == s.fold(destination) {
      name := destination + suffix;
      t := numbered.Create(name).0;
    } else {
      ConsParts(Fails(NameTooLong, 0), [Proceeds] + rest);
      name := suffix;
      t := numbered.Called().Create(name).0;
    }
  }

  lemma RefusedIsSkipped(s: System, destination: Name, processId: nat, rest: seq<Fate>)
    requires s.schedule == [Fails(AlreadyExists, 0)] + rest
    ensures Attempt(s, destination, processId)
         == (s.(schedule := rest, nextTemporaryFile := NextSequence(s.nextTemporaryFile)), None)
  {
    hide Suffix, NextSequence;
    ConsParts(Fails(AlreadyExists, 0), rest);
  }

  /** Under that schedule creation comes to an alias of the absent destination. */
  lemma {:induction false} AliasIsReached(s: System, destination: Name, processId: nat, attempts: nat, rest: seq<Fate>)
      returns (t: System, name: Name)
    requires AliasAhead(s.fold, destination, processId, s.nextTemporaryFile, attempts)
    requires s.schedule == AliasSchedule(s.fold, destination, processId, s.nextTemporaryFile, attempts, rest)
    requires s.fold(destination) !in s.entries
    ensures AliasCreated(s, t, destination, name, rest)
    ensures var (u, outcome) := Settled(t, destination, name, Ok(()));
      outcome.Some? ==> Attempts(s, destination, processId, attempts) == (u, outcome.value)
    decreases attempts
  {
    hide Attempt, Suffix, NextSequence, Settled;
    if Aliasing(s.fold, destination, Suffix(processId, s.nextTemporaryFile)) {
      t, name := AliasIsCreated(s, destination, processId, rest);
    } else {
      var later := AliasSchedule(s.fold, destination, processId, NextSequence(s.nextTemporaryFile), attempts - 1, rest);
      RefusedIsSkipped(s, destination, processId, later);
      t, name := AliasIsReached(Attempt(s, destination, processId).0, destination, processId, attempts - 1, rest);
    }
  }

  lemma {:induction false} AliasScheduleIsSteady(fold: Name -> Name, destination: Name, processId: nat, sequence: nat,
                                                 attempts: nat, rest: seq<Fate>)
    requires AliasAhead(fold, destination, processId, sequence, attempts) && Steady(rest)
    ensures Steady(AliasSchedule(fold, destination, processId, sequence, attempts, rest))
    decreases attempts
  {
    hide Aliasing, Suffix, NextSequence;
    var suffix := Suffix(processId, sequence);
    if fold(destination + suffix) != fold(destination) && !Aliasing(fold, destination, suffix) {
      AliasScheduleIsSteady(fold, destination, processId, NextSequence(sequence), attempts - 1, rest);
    }
  }

  function Leaving(s: System, destination: Name, processId: nat, rest: seq<Fate>): (r: System)
    requires MayAlias(s, destination, processId)
  {
    s.(schedule := AliasSchedule(s.fold, destination, processId, s.nextTemporaryFile, TEMPORARY_CREATE_ATTEMPTS, rest))
  }

  /** With an aliasing candidate ahead, an absent destination can be created empty and stay behind,
      although no call reports anything as not found. */
  lemma EmptyFileIsLeft(s: System, destination: Name, processId: nat, envelope: seq<byte>)
    requires MayAlias(s, destination, processId) && s.fold(destination) !in s.entries
    ensures var (t, r) := Replaced(Leaving(s, destination, processId, ALIAS_REMAINS), destination, processId, envelope);
      && t.entries == s.entries[s.fold(destination) := []] && Logged(t)
      && r == Err(CleanupTemporary(OtherError, CreateTemporary(AlreadyExists)))
      && Steady(Leaving(s, destination, processId, ALIAS_REMAINS).schedule)
  {
    hide Attempts, AliasAhead;
    var start := Leaving(s, destination, processId, ALIAS_REMAINS);
    AliasScheduleIsSteady(s.fold, destination, processId, s.nextTemporaryFile, TEMPORARY_CREATE_ATTEMPTS,
        ALIAS_REMAINS);
    var t, name := AliasIsReached(start, destination, processId, TEMPORARY_CREATE_ATTEMPTS, ALIAS_REMAINS);
    assert ALIAS_REMAINS[1..][1..] == [Fails(OtherError, 0)];
  }

  /** If the status of the entry is reported as not found as well, it can be left with any proper
      prefix of the envelope. */
  lemma PrefixIsLeft(s: System, destination: Name, processId: nat, envelope: seq<byte>, n: nat)
    requires MayAlias(s, destination, processId) && s.fold(destination) !in s.entries && n < |envelope|
    ensures var (t, r) := Replaced(Leaving(s, destination, processId, AliasFilled(n)), destination, processId,
        envelope);
      && t.entries == s.entries[s.fold(destination) := envelope[..n]] && Logged(t)
      && r == Err(CleanupTemporary(OtherError, WriteTemporary(OtherError)))
  {
    hide Attempts, AliasAhead;
    var start := Leaving(s, destination, processId, AliasFilled(n));
    var t, name := AliasIsReached(start, destination, processId, TEMPORARY_CREATE_ATTEMPTS, AliasFilled(n));
    assert AliasFilled(n)[1..][1..] == [Fails(OtherError, n), Fails(OtherError, 0)];
    assert AliasFilled(n)[1..][1..][1..] == [Fails(OtherError, 0)];
  }

  /** Everything recorded by a replacement that begins in `s` shows old contents or the envelope. */
  ghost predicate Atomic(s: System, destination: Name, processId: nat, envelope: seq<byte>) {
    AlwaysVisible(Replaced(s, destination, processId, envelope).0.history, s.fold(destination), s.entries, envelope,
        Nothing)
  }

  /** The replacement of a destination is atomic under every schedule exactly when the destination
      exists already or no candidate name within the limit resolves to its entry; schedules that
      never report an entry as not found make no difference to that. */
  lemma AtomicExactlyWithoutAlias(fold: Name -> Name, entries: Entries, destination: Name, processId: nat,
                                  sequence: nat, envelope: seq<byte>)
    requires envelope != []
    ensures (forall schedule: seq<Fate> ::
               Atomic(Start(fold, schedule, entries, sequence), destination, processId, envelope))
       <==> fold(destination) in entries
            || !AliasAhead(fold, destination, processId, sequence, TEMPORARY_CREATE_ATTEMPTS)
    ensures (forall schedule: seq<Fate> ::
               Steady(schedule) ==> Atomic(Start(fold, schedule, entries, sequence), destination, processId, envelope))
       <==> fold(destination) in entries
            || !AliasAhead(fold, destination, processId, sequence, TEMPORARY_CREATE_ATTEMPTS)
  {
    hide Replaced, AliasAhead, Steady, Atomic;
    if fold(destination) in entries || !AliasAhead(fold, destination, processId, sequence, TEMPORARY_CREATE_ATTEMPTS) {
      forall schedule: seq<Fate>
        ensures Atomic(Start(fold, schedule, entries, sequence), destination, processId, envelope)
      {
        AtomicWithoutAlias(Start(fold, schedule, entries, sequence), destination, processId, envelope);
      }
    } else {
      var s := Start(fold, [], entries, sequence);
      var start := Leaving(s, destination, processId, ALIAS_REMAINS);
      EmptyFileIsLeft(s, destination, processId, envelope);
      LeftIsNotAtomic(start, destination, processId, envelope, []);
      assert start == Start(fold, start.schedule, entries, sequence);
    }
  }

  lemma AtomicWithoutAlias(s: System, destination: Name, processId: nat, envelope: seq<byte>)
    requires s.history == [s.entries]
    requires s.fold(destination) in s.entries || !MayAlias(s, destination, processId)
    ensures Atomic(s, destination, processId, envelope)
  {
    hide Replaced, MayAlias, Steady;
    var exposure := if s.fold(destination) in s.entries then Prefixes else Nothing;
    ReplacedKeeps(s, destination, processId, envelope, exposure);
  }

  lemma LeftIsNotAtomic(s: System, destination: Name, processId: nat, envelope: seq<byte>, content: seq<byte>)
    requires s.fold(destination) !in s.entries && content != envelope
    requires Replaced(s, destination, processId, envelope).0.entries == s.entries[s.fold(destination) := content]
    requires Logged(Replaced(s, destination, processId, envelope).0)
    ensures !Atomic(s, destination, processId, envelope)
  {
    hide Replaced;
    var t := Replaced(s, destination, processId, envelope).0;
    assert !Visible(t.history[|t.history| - 1], s.fold(destination), s.entries, envelope, Nothing);
  }

  // ---------- file systems that fold names ----------

  /** Where distinct names are distinct entries, every replacement is atomic. */
  lemma {:induction false} DistinctNamesNeverAlias(fold: Name -> Name, destination: Name, processId: nat, sequence: nat,
                                                   attempts: nat)
    requires forall a, b :: fold(a) == fold(b) ==> a == b
    ensures !AliasAhead(fold, destination, processId, sequence, attempts)
    decreases attempts
  {
    if attempts > 0 {
      assert |destination + Suffix(processId, sequence)| > |destination|;
      DistinctNamesNeverAlias(fold, destination, processId, NextSequence(sequence), attempts - 1);
    }
  }

  function LoweredLetter(c: char): (r: char) {
    if 'A' <= c <= 'Z' then c - 'A' + 'a' else c
  }

  /** A system that ignores the case of ASCII letters. */
  function Lowered(name: Name): (r: Name)
    ensures |r| == |name|
  {
    seq(|name|, i requires 0 <= i < |name| => LoweredLetter(name[i]))
  }

  /** A system that keeps the first 14 characters of a name. */
  function Truncated(name: Name): (r: Name) {
    name[..Min(14, |name|)]
  }

  /** Without case, only a suffix's own variants in case alias it: never a name that does not
      begin with a dot. */
  lemma CaseFoldingAliases(destination: Name, processId: nat, sequence: nat)
    ensures var suffix := Suffix(processId, sequence);
      && (Aliasing(Lowered, destination, suffix) <==> destination != suffix && Lowered(destination) == Lowered(suffix))
      && (Aliasing(Lowered, destination, suffix) ==> destination != [] && destination[0] == '.')
  {
    var suffix := Suffix(processId, sequence);
    assert |Lowered(destination + suffix)| > |Lowered(destination)|;
    if Aliasing(Lowered, destination, suffix) {
      assert Lowered(destination)[0] == Lowered(suffix)[0] == '.';
    }
  }

  lemma {:induction false} CaseFoldingKeepsNames(destination: Name, processId: nat, sequence: nat, attempts: nat)
    requires destination != [] && destination[0] != '.'
    ensures !AliasAhead(Lowered, destination, processId, sequence, attempts)
    decreases attempts
  {
    if attempts > 0 {
      CaseFoldingAliases(destination, processId, sequence);
      CaseFoldingKeepsNames(destination, processId, NextSequence(sequence), attempts - 1);
    }
  }

  /** A suffix with its first letter in upper case. */
  function CaseVariant(processId: nat, sequence: nat): (r: Name) {
    ".R" + Suffix(processId, sequence)[2..]
  }

  lemma CaseVariantAliases(processId: nat, sequence: nat)
    ensures Aliasing(Lowered, CaseVariant(processId, sequence), Suffix(processId, sequence))
  {
    hide Decimal;
    var destination, suffix := CaseVariant(processId, sequence), Suffix(processId, sequence);
    assert suffix[0] == '.' && suffix[1] == 'r' && destination[1] == 'R';
    forall i | 0 <= i < |suffix|
      ensures Lowered(suffix)[i] == Lowered(destination)[i]
    {
    }
  }

  /** For every process and counter, such a destination, absent, can be left behind as an empty file. */
  lemma CaseVariantIsLeftEmpty(processId: nat, sequence: nat, envelope: seq<byte>)
    requires envelope != []
    ensures var destination := CaseVariant(processId, sequence);
      exists schedule: seq<Fate> ::
        Steady(schedule)
        && Replaced(Start(Lowered, schedule, map[], sequence), destination, processId, envelope).0.entries
           == map[Lowered(destination) := []]
  {
    hide Aliasing, Lowered, Suffix, Replaced, CaseVariant, Steady;
    CaseVariantAliases(processId, sequence);
    var s := Start(Lowered, [], map[], sequence);
    var start := Leaving(s, CaseVariant(processId, sequence), processId, ALIAS_REMAINS);
    EmptyFileIsLeft(s, CaseVariant(processId, sequence), processId, envelope);
    assert start == Start(Lowered, start.schedule, map[], sequence);
  }

  lemma TruncatedCandidateIsRetried(s: System, destination: Name, processId: nat)
    requires s.fold == Truncated && |destination| >= 14 && Truncated(destination) !in s.entries && s.schedule == []
    ensures Attempt(s, destination, processId)
         == (s.(history := s.history + [s.entries[Truncated(destination) := []]] + [s.entries],
                nextTemporaryFile := NextSequence(s.nextTemporaryFile)), None)
  {
    hide Suffix, NextSequence;
    var suffix := Suffix(processId, s.nextTemporaryFile);
    assert Truncated(destination + suffix) == Truncated(destination);
    assert s.entries[Truncated(destination) := []] - {Truncated(destination)} == s.entries;
  }

  /** Where names are cut to 14 characters, a destination at least as long can never be created:
      without any failure each attempt shows it as an empty file, and after the last it is absent. */
  lemma {:induction false} TruncationCollides(s: System, destination: Name, processId: nat, attempts: nat)
    requires s.fold == Truncated && |destination| >= 14 && Truncated(destination) !in s.entries && s.schedule == []
    ensures var (t, r) := Attempts(s, destination, processId, attempts);
      && r == Err(CreateTemporary(AlreadyExists)) && t.entries == s.entries
      && |t.history| == |s.history| + 2 * attempts && s.history <= t.history
      && forall k: nat :: k < attempts ==> Look(t.history[|s.history| + 2 * k], Truncated(destination)) == Some([])
    decreases attempts
  {
    hide Attempt, Truncated, NextSequence;
    if attempts > 0 {
      TruncatedCandidateIsRetried(s, destination, processId);
      var after := Attempt(s, destination, processId).0;
      TruncationCollides(after, destination, processId, attempts - 1);
      var t := Attempts(s, destination, processId, attempts).0;
      assert Look(after.history[|s.history|], Truncated(destination)) == Some([]);
      forall k: nat | k < attempts
        ensures Look(t.history[|s.history| + 2 * k], Truncated(destination)) == Some([])
      {
        if k > 0 {
          var j: nat := k - 1;
          assert Look(t.history[|after.history| + 2 * j], Truncated(destination)) == Some([]);
        }
      }
    }
  }

  /** There, an entry's status wrongly reported as not found and a write that stops after one byte
      leave that byte at the absent destination. */
  lemma TruncationLeavesOneByte(destination: Name, processId: nat, sequence: nat, envelope: seq<byte>)
    requires |destination| >= 14 && |envelope| > 1
    ensures var schedule := [Proceeds, Proceeds, Fails(NotFound, 0), Fails(OtherError, 1), Fails(OtherError, 0)];
      var s := Start(Truncated, schedule, map[], sequence);
      && Replaced(s, destination, processId, envelope).0.entries == map[Truncated(destination) := envelope[..1]]
      && !Atomic(s, destination, processId, envelope)
  {
    hide Replaced, Suffix, Atomic;
    var schedule := [Proceeds, Proceeds, Fails(NotFound, 0), Fails(OtherError, 1), Fails(OtherError, 0)];
    var s := Start(Truncated, schedule, map[], sequence);
    assert Truncated(destination + Suffix(processId, sequence)) == Truncated(destination);
    assert MayAlias(s, destination, processId);
    assert [Proceeds] + AliasFilled(1) == schedule;
    PrefixIsLeft(s, destination, processId, envelope, 1);
    LeftIsNotAtomic(s, destination, processId, envelope, envelope[..1]);
  }
}
