/** Verification of frozen snapshots, with a cache of digests by file signature and receipts kept between runs. */
module SnapshotVerify {
  import opened Bytes
  import opened Ordered

  type Hash = string
  type Path = string

  /** `stat`: device, inode, size, modification time and change time. */
  datatype Stamp = Stamp(device: int, inode: int, size: int, modified: int, changed: int)

  /** The part of a signature that fixes a file's content; the change time also moves when a link is made. */
  datatype Identity = Identity(device: int, inode: int, size: int, modified: int)

  function IdentityOf(s: Stamp): Identity {
    Identity(s.device, s.inode, s.size, s.modified)
  }

  /** What the content behind an identity hashes to. */
  type Contents = Identity -> Hash

  datatype Receipt = Receipt(stamp: Stamp, hash: Hash)
  type Receipts = map<Path, Receipt>

  /** The files one run looks at, each once. */
  datatype Role = Captured(name: string) | Published(name: string) | CapturedBase | PublishedBase | Artifact(name: string)

  datatype Reading = Reading(hash: Hash, after: Stamp)

  /** What a look at a file finds: nothing, or its signature and, should it be read, a digest and the signature after. */
  datatype Look = Gone | Seen(before: Stamp, reading: Option<Reading>)

  /** The frozen capture that a new snapshot was copied from. */
  datatype Reference = Reference(host: string, files: map<string, Stamp>, base: Option<Stamp>)

  datatype Manifest = Manifest(id: string, version: nat, files: Dict<string, Option<Hash>>, base: Option<Hash>,
                               runtime: Dict<string, Hash>, reference: Option<Reference>)

  datatype Result = Pending | Running | Passed | Failed

  datatype Status = Status(id: string, result: Result, checked: seq<string>, verified: Receipts, failedBefore: bool)

  datatype State = State(manifest: Manifest, status: Option<Status>)

  /** One run: its node, whether the metadata checks succeed, and what it finds where. */
  datatype Job = Job(here: string, inspected: bool, runtimeFound: bool, place: Role -> Path, eyes: Role -> Look)

  datatype Memo = Memo(cache: map<Stamp, Hash>, receipts: Receipts)

  const FRESH := Memo(map[], map[])

  /* One digest. */

  predicate AsRecorded(before: Stamp, wanted: Stamp, base: bool) {
    before == wanted || (base && IdentityOf(before) == IdentityOf(wanted))
  }

  function Seed(cache: map<Stamp, Hash>, verified: Receipts, path: Path, before: Stamp, expected: Option<Hash>)
    : map<Stamp, Hash>
  {
    if path in verified && verified[path].stamp == before && Some(verified[path].hash) == expected
    then cache[before := verified[path].hash]
    else cache
  }

  predicate Changed(before: Stamp, reading: Reading, expected: Option<Hash>, base: bool) {
    && reading.after != before
    && ((!base && Some(reading.hash) != expected) || IdentityOf(reading.after) != IdentityOf(before))
  }

  function Digest(m: Memo, verified: Receipts, job: Job, role: Role, wanted: Option<Stamp>, expected: Option<Hash>,
                  base: bool): Option<(Hash, Memo)>
  {
    match job.eyes(role)
    case Gone => None
    case Seen(before, reading) =>
      if wanted.Some? && !AsRecorded(before, wanted.value, base) then None
      else
        var path := job.place(role);
        var cache := Seed(m.cache, verified, path, before, expected);
        if before in cache then
          Some((cache[before], Memo(cache, m.receipts[path := Receipt(before, cache[before])])))
        else if reading.None? || Changed(before, reading.value, expected, base) then None
        else
          var hash, after := reading.value.hash, reading.value.after;
          Some((hash, Memo(cache[before := hash][after := hash], m.receipts[path := Receipt(after, hash)])))
  }

  /* A whole run. */

  /** The digest of a file must be `expected`. */
  function Compare(m: Memo, verified: Receipts, job: Job, role: Role, expected: Hash): Option<Memo> {
    match Digest(m, verified, job, role, None, Some(expected), false)
    case None => None
    case Some((hash, after)) => if hash == expected then Some(after) else None
  }

  /** Compare with the recorded hash, or with the frozen source when none is recorded yet. */
  function Pin(m: Memo, verified: Receipts, job: Job, recorded: Option<Hash>, origin: Option<Stamp>, source: Role,
               copy: Role, base: bool): Option<(Hash, Memo)>
  {
    if recorded.None? && origin.None? then None
    else
      var expected: Option<(Hash, Memo)> := if recorded.Some? then Some((recorded.value, m))
        else Digest(m, verified, job, source, origin, None, base);
      match expected
      case None => None
      case Some((hash, before)) =>
        match Compare(before, verified, job, copy, hash)
        case None => None
        case Some(after) => Some((hash, after))
  }

  function OriginOf(reference: Option<Reference>, here: string, name: string): Option<Stamp> {
    if reference.Some? && reference.value.host == here && name in reference.value.files
    then Some(reference.value.files[name])
    else None
  }

  function OriginOfBase(reference: Option<Reference>, here: string): Option<Stamp> {
    if reference.Some? && reference.value.host == here then reference.value.base else None
  }

  /** Files pinned so far, and whether none failed. */
  datatype Progress = Progress(pinned: Dict<string, Option<Hash>>, memo: Memo, ok: bool)

  function Files(files: Dict<string, Option<Hash>>, verified: Receipts, job: Job, reference: Option<Reference>): Progress {
    if files == [] then Progress([], FRESH, true)
    else
      var front := Files(files[..|files| - 1], verified, job, reference);
      var (name, recorded) := files[|files| - 1];
      if !front.ok then front
      else
        match Pin(front.memo, verified, job, recorded, OriginOf(reference, job.here, name), Captured(name),
                  Published(name), false)
        case None => front.(ok := false)
        case Some((hash, memo)) => Progress(front.pinned + [(name, Some(hash))], memo, true)
  }

  function Runtime(runtime: Dict<string, Hash>, m: Memo, verified: Receipts, job: Job): Option<Memo> {
    if runtime == [] then Some(m)
    else
      match Runtime(runtime[..|runtime| - 1], m, verified, job)
      case None => None
      case Some(memo) =>
        Compare(memo, verified, job, Artifact(runtime[|runtime| - 1].0), runtime[|runtime| - 1].1)
  }

  function Names(files: Dict<string, Option<Hash>>): (names: seq<string>)
    ensures |names| == |files| && forall i | 0 <= i < |files| :: names[i] == files[i].0
  {
    if files == [] then [] else Names(files[..|files| - 1]) + [files[|files| - 1].0]
  }

  /** What a run comes to: the files it got through and, on success, the pinned manifest and the receipts. */
  datatype Outcome = Outcome(checked: seq<string>, success: Option<(Manifest, Receipts)>)

  function Examine(manifest: Manifest, verified: Receipts, job: Job): Outcome {
    if !job.inspected || manifest.version !in {1, 2} then Outcome([], None)
    else
      var files := Files(manifest.files, verified, job, manifest.reference);
      var checked := Names(files.pinned);
      if !files.ok then Outcome(checked, None)
      else
        match Pin(files.memo, verified, job, manifest.base, OriginOfBase(manifest.reference, job.here), CapturedBase,
                  PublishedBase, true)
        case None => Outcome(checked, None)
        case Some((hash, memo)) =>
          if !job.runtimeFound then Outcome(checked, None)
          else
            match Runtime(manifest.runtime, memo, verified, job)
            case None => Outcome(checked, None)
            case Some(end) => Outcome(checked, Some((manifest.(files := files.pinned, base := Some(hash)), end.receipts)))
  }

  /** A manifest without an identifier is known by its fingerprint. */
  function Known(manifest: Manifest, fingerprint: Manifest -> string): string {
    if manifest.id != "" then manifest.id else fingerprint(manifest)
  }

  /** The snapshot's last status, if it is about this manifest. */
  function Previous(s: State, fingerprint: Manifest -> string): Option<Status> {
    if s.status.Some? && s.status.value.id == Known(s.manifest, fingerprint) then s.status else None
  }

  function Trusted(s: State, handed: Receipts, reuse: bool, fingerprint: Manifest -> string): Receipts {
    var previous := Previous(s, fingerprint);
    if previous.Some? && reuse && previous.value.result == Passed then previous.value.verified + handed else handed
  }

  /** A restore is refused: verification failed, and no later run has passed. */
  predicate Refused(s: State, fingerprint: Manifest -> string) {
    var previous := Previous(s, fingerprint);
    previous.Some? && (previous.value.result == Failed || previous.value.failedBefore)
  }

  function Started(s: State, fingerprint: Manifest -> string): Status {
    Status(Known(s.manifest, fingerprint), Running, [], map[], Refused(s, fingerprint))
  }

  function VerifiedBy(s: State, handed: Receipts, reuse: bool, job: Job, fingerprint: Manifest -> string): State {
    var outcome := Examine(s.manifest, Trusted(s, handed, reuse, fingerprint), job);
    var status := Started(s, fingerprint).(checked := outcome.checked);
    match outcome.success
    case None => s.(status := Some(status.(result := Failed)))
    case Some((pinned, receipts)) =>
      State(if s.manifest.version == 2 then pinned else s.manifest,
            Some(status.(result := Passed, verified := receipts, failedBefore := false)))
  }

  /** One run's memory of digests. */
  class Run {
    const verified: Receipts
    const job: Job
    var cache: map<Stamp, Hash>
    var receipts: Receipts

    function Held(): Memo
      reads this
    {
      Memo(cache, receipts)
    }

    constructor (verified: Receipts, job: Job)
      ensures Held() == FRESH && this.verified == verified && this.job == job
    {
      this.verified, this.job, cache, receipts := verified, job, map[], map[];
    }

    method DigestOf(role: Role, wanted: Option<Stamp>, expected: Option<Hash>, base: bool) returns (r: Option<Hash>)
      modifies this
      ensures
        match Digest(old(Held()), verified, job, role, wanted, expected, base)
        case None => r.None?
        case Some((hash, memo)) => r == Some(hash) && Held() == memo
    {
      var look, path := job.eyes(role), job.place(role);
      if look.Gone? || (wanted.Some? && !AsRecorded(look.before, wanted.value, base)) {
        return None;
      }
      var before := look.before;
      var after := before;
      if path in verified && verified[path].stamp == before && Some(verified[path].hash) == expected {
        cache := cache[before := verified[path].hash];
      }
      if before !in cache {
        if look.reading.None? {
          return None;
        }
        var result := look.reading.value.hash;
        after := look.reading.value.after;
        if after != before {
          if (!base && Some(result) != expected) || IdentityOf(after) != IdentityOf(before) {
            return None;
          }
        }
        cache := cache[before := result];
        cache := cache[after := result];
      }
      receipts := receipts[path := Receipt(after, cache[before])];
      return Some(cache[before]);
    }

    method PinOf(recorded: Option<Hash>, origin: Option<Stamp>, source: Role, copy: Role, base: bool)
      returns (r: Option<Hash>)
      modifies this
      ensures
        match Pin(old(Held()), verified, job, recorded, origin, source, copy, base)
        case None => r.None?
        case Some((hash, memo)) => r == Some(hash) && Held() == memo
    {
      hide Digest;
      var expected := recorded;
      if expected.None? {
        if origin.None? {
          return None;
        }
        expected := DigestOf(source, origin, None, base);
        if expected.None? {
          return None;
        }
      }
      var actual := DigestOf(copy, None, expected, false);
      if actual != expected {
        return None;
      }
      return actual;
    }
  }

  /** A snapshot directory: its manifest and the status of its last verification. */
  class Snapshot {
    var manifest: Manifest
    var status: Option<Status>

    function Now(): State
      reads this
    {
      State(manifest, status)
    }

    method Verify(handed: Receipts, reuse: bool, job: Job, fingerprint: Manifest -> string)
      modifies this
      ensures Now() == VerifiedBy(old(Now()), handed, reuse, job, fingerprint)
    {
      hide Examine;
      var verified := handed;
      var current := Status(Known(manifest, fingerprint), Running, [], map[], false);
      if status.Some? && status.value.id == Known(manifest, fingerprint) {
        if reuse && status.value.result == Passed {
          verified := status.value.verified + handed;
        }
        if status.value.result == Failed || status.value.failedBefore {
          current := current.(failedBefore := true);
        }
      }
      status := Some(current);
      var run := new Run(verified, job);
      var pinned, names, passed := Check(manifest, run);
      current := current.(checked := names);
      if passed {
        if manifest.version == 2 {
          manifest := pinned;
        }
        status := Some(current.(result := Passed, verified := run.receipts, failedBefore := false));
      } else {
        status := Some(current.(result := Failed));
      }
    }
  }

  /** The comparisons of one run, up to the first that fails. */
  method Check(manifest: Manifest, run: Run) returns (pinned: Manifest, names: seq<string>, passed: bool)
    requires run.Held() == FRESH
    modifies run
    ensures
      var outcome := Examine(manifest, run.verified, run.job);
      && names == outcome.checked && passed == outcome.success.Some?
      && (passed ==> outcome.success == Some((pinned, run.receipts)))
  {
    hide Pin, Compare, Files, Runtime, Names;
    FilesFirst(run.verified, run.job, manifest.reference);
    pinned, names, passed := manifest, [], false;
    if !run.job.inspected || manifest.version !in {1, 2} {
      return;
    }
    var done: Dict<string, Option<Hash>> := [];
    for i := 0 to |manifest.files|
      invariant Files(manifest.files[..i], run.verified, run.job, manifest.reference) == Progress(done, run.Held(), true)
      invariant names == Names(done)
    {
      var (name, recorded) := manifest.files[i];
      assert manifest.files[..i + 1][..i] == manifest.files[..i];
      var origin := OriginOf(manifest.reference, run.job.here, name);
      var actual := run.PinOf(recorded, origin, Captured(name), Published(name), false);
      if actual.None? {
        FilesNext(manifest.files[..i + 1], run.verified, run.job, manifest.reference);
        FilesStop(manifest.files, i + 1, run.verified, run.job, manifest.reference);
        return;
      }
      FilesNext(manifest.files[..i + 1], run.verified, run.job, manifest.reference);
      NamesNext(done, name, actual);
      done, names := done + [(name, actual)], names + [name];
    }
    assert manifest.files[..|manifest.files|] == manifest.files;
    var base := run.PinOf(manifest.base, OriginOfBase(manifest.reference, run.job.here), CapturedBase, PublishedBase, true);
    if base.None? || !run.job.runtimeFound {
      return;
    }
    passed := CheckRuntime(manifest.runtime, run);
    pinned := manifest.(files := done, base := base);
  }

  lemma FilesFirst(verified: Receipts, job: Job, reference: Option<Reference>)
    ensures Files([], verified, job, reference) == Progress([], FRESH, true) && Names([]) == []
  {
  }

  lemma NamesNext(done: Dict<string, Option<Hash>>, name: string, hash: Option<Hash>)
    ensures Names(done + [(name, hash)]) == Names(done) + [name]
  {
  }

  lemma FilesNext(files: Dict<string, Option<Hash>>, verified: Receipts, job: Job, reference: Option<Reference>)
    requires files != [] && Files(files[..|files| - 1], verified, job, reference).ok
    ensures
      var front := Files(files[..|files| - 1], verified, job, reference);
      var (name, recorded) := files[|files| - 1];
      Files(files, verified, job, reference) ==
      match Pin(front.memo, verified, job, recorded, OriginOf(reference, job.here, name), Captured(name),
                Published(name), false)
      case None => front.(ok := false)
      case Some((hash, memo)) => Progress(front.pinned + [(name, Some(hash))], memo, true)
  {
    hide Pin;
  }

  method CheckRuntime(runtime: Dict<string, Hash>, run: Run) returns (passed: bool)
    modifies run
    ensures
      var end := Runtime(runtime, old(run.Held()), run.verified, run.job);
      passed == end.Some? && (passed ==> end.value == run.Held())
  {
    hide Digest;
    ghost var start := run.Held();
    for i := 0 to |runtime|
      invariant Runtime(runtime[..i], start, run.verified, run.job) == Some(run.Held())
    {
      assert runtime[..i + 1][..i] == runtime[..i];
      var actual := run.DigestOf(Artifact(runtime[i].0), None, Some(runtime[i].1), false);
      if actual != Some(runtime[i].1) {
        RuntimeStops(runtime, i + 1, start, run.verified, run.job);
        return false;
      }
    }
    assert runtime[..|runtime|] == runtime;
    return true;
  }

  lemma {:induction false} FilesStop(files: Dict<string, Option<Hash>>, i: nat, verified: Receipts, job: Job,
                                     reference: Option<Reference>)
    requires i <= |files| && !Files(files[..i], verified, job, reference).ok
    ensures Files(files, verified, job, reference) == Files(files[..i], verified, job, reference)
  {
    if i < |files| {
      assert files[..|files| - 1][..i] == files[..i];
      FilesStop(files[..|files| - 1], i, verified, job, reference);
    } else {
      assert files[..i] == files;
    }
  }

  lemma {:induction false} RuntimeStops(runtime: Dict<string, Hash>, i: nat, m: Memo, verified: Receipts, job: Job)
    requires i <= |runtime| && Runtime(runtime[..i], m, verified, job).None?
    ensures Runtime(runtime, m, verified, job).None?
  {
    if i < |runtime| {
      assert runtime[..|runtime| - 1][..i] == runtime[..i];
      RuntimeStops(runtime[..|runtime| - 1], i, m, verified, job);
    } else {
      assert runtime[..i] == runtime;
    }
  }

  /* Contents. Device, inode, size and modification time fix what a file hashes to. */

  ghost predicate Honest(w: Contents, receipts: Receipts) {
    forall p | p in receipts :: receipts[p].hash == w(IdentityOf(receipts[p].stamp))
  }

  ghost predicate Sound(w: Contents, m: Memo) {
    Honest(w, m.receipts) && forall s | s in m.cache :: m.cache[s] == w(IdentityOf(s))
  }

  /** A reading between two looks that find one identity is a reading of that content. */
  ghost predicate Faithful(w: Contents, look: Look) {
    look.Seen? && look.reading.Some? && IdentityOf(look.reading.value.after) == IdentityOf(look.before) ==>
      look.reading.value.hash == w(IdentityOf(look.before))
  }

  /** Besides, the file can be read and nothing touches it meanwhile. */
  ghost predicate Quiet(w: Contents, look: Look) {
    look.Seen? ==> look.reading == Some(Reading(w(IdentityOf(look.before)), look.before))
  }

  /** What the file found at `role` holds. */
  function Truth(w: Contents, job: Job, role: Role): Option<Hash> {
    if job.eyes(role).Seen? then Some(w(IdentityOf(job.eyes(role).before))) else None
  }

  lemma DigestIsTrue(w: Contents, m: Memo, verified: Receipts, job: Job, role: Role, wanted: Option<Stamp>,
                     expected: Option<Hash>, base: bool)
    requires Sound(w, m) && Honest(w, verified) && Faithful(w, job.eyes(role))
    requires Digest(m, verified, job, role, wanted, expected, base).Some?
    ensures
      var (hash, memo) := Digest(m, verified, job, role, wanted, expected, base).value;
      && Truth(w, job, role) == Some(hash) && Sound(w, memo)
      && (wanted.Some? ==> AsRecorded(job.eyes(role).before, wanted.value, base))
  {
    var before := job.eyes(role).before;
    var cache := Seed(m.cache, verified, job.place(role), before, expected);
    assert forall s | s in cache :: cache[s] == w(IdentityOf(s));
  }

  /** When nothing moves, a digest depends on the content alone: neither cache nor receipts can be told from reading. */
  lemma DigestIsExact(w: Contents, m: Memo, verified: Receipts, job: Job, role: Role, wanted: Option<Stamp>,
                      expected: Option<Hash>, base: bool)
    requires Sound(w, m) && Honest(w, verified) && Quiet(w, job.eyes(role))
    ensures
      var r := Digest(m, verified, job, role, wanted, expected, base);
      && (r.None? <==> job.eyes(role).Gone? || (wanted.Some? && !AsRecorded(job.eyes(role).before, wanted.value, base)))
      && (r.Some? ==> Truth(w, job, role) == Some(r.value.0) && Sound(w, r.value.1))
  {
    if Digest(m, verified, job, role, wanted, expected, base).Some? {
      DigestIsTrue(w, m, verified, job, role, wanted, expected, base);
    }
  }

  /** The hash to pin, read off the contents: the recorded one or that of the frozen source, if the copy has it too. */
  function Agreed(w: Contents, job: Job, recorded: Option<Hash>, origin: Option<Stamp>, source: Role, copy: Role,
                  base: bool): Option<Hash>
  {
    var expected :=
      if recorded.Some? then recorded
      else if origin.Some? && job.eyes(source).Seen? && AsRecorded(job.eyes(source).before, origin.value, base)
      then Truth(w, job, source)
      else None;
    if expected.Some? && Truth(w, job, copy) == expected then expected else None
  }

  lemma PinIsTrue(w: Contents, m: Memo, verified: Receipts, job: Job, recorded: Option<Hash>, origin: Option<Stamp>,
                  source: Role, copy: Role, base: bool)
    requires Sound(w, m) && Honest(w, verified) && Faithful(w, job.eyes(source)) && Faithful(w, job.eyes(copy))
    requires Pin(m, verified, job, recorded, origin, source, copy, base).Some?
    ensures
      var (hash, memo) := Pin(m, verified, job, recorded, origin, source, copy, base).value;
      Agreed(w, job, recorded, origin, source, copy, base) == Some(hash) && Sound(w, memo)
  {
    hide Digest, Sound, Honest, Faithful, AsRecorded;
    var before, hash := m, if recorded.Some? then recorded.value else "";
    if recorded.None? {
      DigestIsTrue(w, m, verified, job, source, origin, None, base);
      var found := Digest(m, verified, job, source, origin, None, base).value;
      hash, before := found.0, found.1;
    }
    DigestIsTrue(w, before, verified, job, copy, None, Some(hash), false);
  }

  lemma PinIsExact(w: Contents, m: Memo, verified: Receipts, job: Job, recorded: Option<Hash>, origin: Option<Stamp>,
                   source: Role, copy: Role, base: bool)
    requires Sound(w, m) && Honest(w, verified) && Quiet(w, job.eyes(source)) && Quiet(w, job.eyes(copy))
    ensures
      var r := Pin(m, verified, job, recorded, origin, source, copy, base);
      && (r.Some? <==> Agreed(w, job, recorded, origin, source, copy, base).Some?)
      && (r.Some? ==> Agreed(w, job, recorded, origin, source, copy, base) == Some(r.value.0) && Sound(w, r.value.1))
  {
    hide Digest, Sound, Honest, Quiet, AsRecorded;
    var before, hash := m, if recorded.Some? then recorded.value else "";
    if recorded.None? {
      if origin.None? {
        return;
      }
      DigestIsExact(w, m, verified, job, source, origin, None, base);
      var found := Digest(m, verified, job, source, origin, None, base);
      if found.None? {
        return;
      }
      hash, before := found.value.0, found.value.1;
    }
    DigestIsExact(w, before, verified, job, copy, None, Some(hash), false);
  }

  ghost predicate AllFaithful(w: Contents, job: Job) {
    forall role :: Faithful(w, job.eyes(role))
  }

  ghost predicate AllQuiet(w: Contents, job: Job) {
    forall role :: Quiet(w, job.eyes(role))
  }

  function FileAgreed(w: Contents, job: Job, file: (string, Option<Hash>), reference: Option<Reference>): Option<Hash> {
    Agreed(w, job, file.1, OriginOf(reference, job.here, file.0), Captured(file.0), Published(file.0), false)
  }

  ghost predicate PinnedAs(w: Contents, job: Job, reference: Option<Reference>, files: Dict<string, Option<Hash>>,
                           pinned: Dict<string, Option<Hash>>)
  {
    && |pinned| == |files|
    && forall k | 0 <= k < |files| ::
         FileAgreed(w, job, files[k], reference).Some? && pinned[k] == (files[k].0, FileAgreed(w, job, files[k], reference))
  }

  ghost predicate FilesAgree(w: Contents, job: Job, reference: Option<Reference>, files: Dict<string, Option<Hash>>) {
    forall k | 0 <= k < |files| :: FileAgreed(w, job, files[k], reference).Some?
  }

  ghost predicate RuntimeAgrees(w: Contents, job: Job, runtime: Dict<string, Hash>) {
    forall k | 0 <= k < |runtime| :: Truth(w, job, Artifact(runtime[k].0)) == Some(runtime[k].1)
  }

  lemma {:induction false} FilesAreTrue(w: Contents, files: Dict<string, Option<Hash>>, verified: Receipts, job: Job,
                                        reference: Option<Reference>)
    requires Honest(w, verified) && AllFaithful(w, job) && Files(files, verified, job, reference).ok
    ensures Sound(w, Files(files, verified, job, reference).memo)
    ensures PinnedAs(w, job, reference, files, Files(files, verified, job, reference).pinned)
  {
    hide Pin, Agreed, Honest, Faithful, Sound;
    if files != [] {
      var n := |files| - 1;
      FilesAreTrue(w, files[..n], verified, job, reference);
      var front, last := Files(files[..n], verified, job, reference), files[n];
      assert forall k | 0 <= k < n :: files[..n][k] == files[k];
      assert Faithful(w, job.eyes(Captured(last.0))) && Faithful(w, job.eyes(Published(last.0)));
      PinIsTrue(w, front.memo, verified, job, last.1, OriginOf(reference, job.here, last.0), Captured(last.0),
                Published(last.0), false);
    } else {
      NothingIsSound(w);
    }
  }

  lemma NothingIsSound(w: Contents)
    ensures Sound(w, FRESH)
  {
  }

  lemma {:induction false} FilesAreExact(w: Contents, files: Dict<string, Option<Hash>>, verified: Receipts, job: Job,
                                         reference: Option<Reference>)
    requires Honest(w, verified) && AllQuiet(w, job)
    ensures Files(files, verified, job, reference).ok <==> FilesAgree(w, job, reference, files)
    ensures Sound(w, Files(files, verified, job, reference).memo)
  {
    hide Pin, Agreed, Honest, Quiet, Sound;
    if files != [] {
      var n := |files| - 1;
      FilesAreExact(w, files[..n], verified, job, reference);
      var front, last := Files(files[..n], verified, job, reference), files[n];
      assert Quiet(w, job.eyes(Captured(last.0))) && Quiet(w, job.eyes(Published(last.0)));
      assert forall k | 0 <= k < n :: files[..n][k] == files[k];
      PinIsExact(w, front.memo, verified, job, last.1, OriginOf(reference, job.here, last.0), Captured(last.0),
                 Published(last.0), false);
    } else {
      NothingIsSound(w);
    }
  }

  lemma {:induction false} RuntimeIsTrue(w: Contents, runtime: Dict<string, Hash>, m: Memo, verified: Receipts, job: Job)
    requires Sound(w, m) && Honest(w, verified) && AllFaithful(w, job) && Runtime(runtime, m, verified, job).Some?
    ensures Sound(w, Runtime(runtime, m, verified, job).value) && RuntimeAgrees(w, job, runtime)
  {
    hide Digest, Honest, Faithful, Sound, Truth;
    if runtime != [] {
      var n := |runtime| - 1;
      RuntimeIsTrue(w, runtime[..n], m, verified, job);
      var role := Artifact(runtime[n].0);
      assert Faithful(w, job.eyes(role));
      assert forall k | 0 <= k < n :: runtime[..n][k] == runtime[k];
      DigestIsTrue(w, Runtime(runtime[..n], m, verified, job).value, verified, job, role, None, Some(runtime[n].1), false);
    }
  }

  lemma {:induction false} RuntimeIsExact(w: Contents, runtime: Dict<string, Hash>, m: Memo, verified: Receipts, job: Job)
    requires Sound(w, m) && Honest(w, verified) && AllQuiet(w, job)
    ensures Runtime(runtime, m, verified, job).Some? <==> RuntimeAgrees(w, job, runtime)
    ensures Runtime(runtime, m, verified, job).Some? ==> Sound(w, Runtime(runtime, m, verified, job).value)
  {
    hide Digest, Honest, Quiet, Sound;
    if runtime != [] {
      var n := |runtime| - 1;
      RuntimeIsExact(w, runtime[..n], m, verified, job);
      var front, role := Runtime(runtime[..n], m, verified, job), Artifact(runtime[n].0);
      assert Quiet(w, job.eyes(role));
      assert forall k | 0 <= k < n :: runtime[..n][k] == runtime[k];
      if front.Some? {
        DigestIsExact(w, front.value, verified, job, role, None, Some(runtime[n].1), false);
      }
    }
  }

  function BaseAgreed(w: Contents, manifest: Manifest, job: Job): Option<Hash> {
    Agreed(w, job, manifest.base, OriginOfBase(manifest.reference, job.here), CapturedBase, PublishedBase, true)
  }

  /** The metadata checks succeed and every file, the base image and the runtime hold what they should. */
  ghost predicate Matches(w: Contents, manifest: Manifest, job: Job) {
    && job.inspected && manifest.version in {1, 2} && job.runtimeFound
    && FilesAgree(w, job, manifest.reference, manifest.files)
    && BaseAgreed(w, manifest, job).Some?
    && RuntimeAgrees(w, job, manifest.runtime)
  }

  /** `pinned` is `manifest` with the agreed hashes. */
  ghost predicate PinnedFrom(w: Contents, job: Job, manifest: Manifest, pinned: Manifest) {
    && pinned == manifest.(files := pinned.files, base := BaseAgreed(w, manifest, job))
    && PinnedAs(w, job, manifest.reference, manifest.files, pinned.files)
  }

  lemma ExamineIsTrue(w: Contents, manifest: Manifest, verified: Receipts, job: Job)
    requires Honest(w, verified) && AllFaithful(w, job) && Examine(manifest, verified, job).success.Some?
    ensures
      var (pinned, receipts) := Examine(manifest, verified, job).success.value;
      Matches(w, manifest, job) && PinnedFrom(w, job, manifest, pinned) && Honest(w, receipts)
  {
    hide Files, Pin, Agreed, Runtime, Honest, Faithful, FileAgreed, RuntimeAgrees;
    var files := Files(manifest.files, verified, job, manifest.reference);
    FilesAreTrue(w, manifest.files, verified, job, manifest.reference);
    var origin := OriginOfBase(manifest.reference, job.here);
    assert Faithful(w, job.eyes(CapturedBase)) && Faithful(w, job.eyes(PublishedBase));
    PinIsTrue(w, files.memo, verified, job, manifest.base, origin, CapturedBase, PublishedBase, true);
    var base := Pin(files.memo, verified, job, manifest.base, origin, CapturedBase, PublishedBase, true).value;
    RuntimeIsTrue(w, manifest.runtime, base.1, verified, job);
  }

  lemma ExamineIsExact(w: Contents, manifest: Manifest, verified: Receipts, job: Job)
    requires Honest(w, verified) && AllQuiet(w, job)
    ensures Examine(manifest, verified, job).success.Some? <==> Matches(w, manifest, job)
  {
    hide Files, Pin, Agreed, Runtime, Honest, Quiet, FilesAgree, RuntimeAgrees;
    var files := Files(manifest.files, verified, job, manifest.reference);
    FilesAreExact(w, manifest.files, verified, job, manifest.reference);
    var origin := OriginOfBase(manifest.reference, job.here);
    assert Quiet(w, job.eyes(CapturedBase)) && Quiet(w, job.eyes(PublishedBase));
    PinIsExact(w, files.memo, verified, job, manifest.base, origin, CapturedBase, PublishedBase, true);
    var base := Pin(files.memo, verified, job, manifest.base, origin, CapturedBase, PublishedBase, true);
    if base.Some? {
      RuntimeIsExact(w, manifest.runtime, base.value.1, verified, job);
    }
  }

  /** Receipts the run may rely on: those handed to it, and those its last status left. */
  ghost predicate Trustworthy(w: Contents, s: State) {
    s.status.Some? ==> Honest(w, s.status.value.verified)
  }

  lemma TrustedIsHonest(w: Contents, s: State, handed: Receipts, reuse: bool, fingerprint: Manifest -> string)
    requires Trustworthy(w, s) && Honest(w, handed)
    ensures Honest(w, Trusted(s, handed, reuse, fingerprint))
  {
  }

  ghost predicate Passes(s: State) {
    s.status.Some? && s.status.value.result == Passed
  }

  /** A pass is deserved whatever happens to the files meanwhile, and leaves true receipts and true pins. */
  lemma PassedIsTrue(w: Contents, s: State, handed: Receipts, reuse: bool, job: Job, fingerprint: Manifest -> string)
    requires Trustworthy(w, s) && Honest(w, handed) && AllFaithful(w, job)
    ensures
      var s' := VerifiedBy(s, handed, reuse, job, fingerprint);
      && Trustworthy(w, s')
      && (Passes(s') ==>
            && Matches(w, s.manifest, job)
            && if s.manifest.version == 2 then PinnedFrom(w, job, s.manifest, s'.manifest) else s'.manifest == s.manifest)
  {
    hide Examine, Matches, PinnedFrom, AllFaithful, Honest;
    var verified := Trusted(s, handed, reuse, fingerprint);
    TrustedIsHonest(w, s, handed, reuse, fingerprint);
    if Examine(s.manifest, verified, job).success.Some? {
      ExamineIsTrue(w, s.manifest, verified, job);
    } else {
      assert Honest(w, map[]) by {
        NothingIsSound(w);
      }
    }
  }

  /** While nothing touches the files a run passes exactly when they match, with or without receipts. */
  lemma PassesExactly(w: Contents, s: State, handed: Receipts, reuse: bool, job: Job, fingerprint: Manifest -> string)
    requires Trustworthy(w, s) && Honest(w, handed) && AllQuiet(w, job)
    ensures Passes(VerifiedBy(s, handed, reuse, job, fingerprint)) <==> Matches(w, s.manifest, job)
  {
    hide Examine, Matches, Honest, AllQuiet;
    TrustedIsHonest(w, s, handed, reuse, fingerprint);
    ExamineIsExact(w, s.manifest, Trusted(s, handed, reuse, fingerprint), job);
  }

  /** The copy holds what is recorded for it, or what the frozen source holds, which has not changed since capture. */
  ghost predicate Holds(w: Contents, job: Job, recorded: Option<Hash>, origin: Option<Stamp>, source: Role, copy: Role,
                        base: bool)
  {
    && Truth(w, job, copy).Some?
    && match recorded
       case Some(hash) => Truth(w, job, copy) == recorded
       case None =>
         && Truth(w, job, source) == Truth(w, job, copy)
         && origin.Some? && AsRecorded(job.eyes(source).before, origin.value, base)
  }

  lemma AgreedMeans(w: Contents, job: Job, recorded: Option<Hash>, origin: Option<Stamp>, source: Role, copy: Role,
                    base: bool)
    ensures var hash := Agreed(w, job, recorded, origin, source, copy, base);
            && (hash.Some? <==> Holds(w, job, recorded, origin, source, copy, base))
            && (hash.Some? ==> hash == Truth(w, job, copy))
  {
  }

  /**
   * A file was found with its recorded hash; or none is recorded, and it was found with what the frozen source holds,
   * on its own node and with the very signature it was captured with.
   */
  ghost predicate FileHolds(w: Contents, job: Job, manifest: Manifest, k: nat)
    requires k < |manifest.files|
  {
    var (name, recorded) := manifest.files[k];
    var copy, source, reference := Truth(w, job, Published(name)), Truth(w, job, Captured(name)), manifest.reference;
    && copy.Some?
    && (recorded.Some? ==> copy == recorded)
    && (recorded.None? ==>
          && copy == source && reference.Some? && reference.value.host == job.here && name in reference.value.files
          && job.eyes(Captured(name)).before == reference.value.files[name])
  }

  /** The same of the base image, whose source may have got another change time by links made to it. */
  ghost predicate BaseHolds(w: Contents, job: Job, manifest: Manifest) {
    var copy, source, reference := Truth(w, job, PublishedBase), Truth(w, job, CapturedBase), manifest.reference;
    && copy.Some?
    && (manifest.base.Some? ==> copy == manifest.base)
    && (manifest.base.None? ==>
          && copy == source && reference.Some? && reference.value.host == job.here && reference.value.base.Some?
          && var before, captured := job.eyes(CapturedBase).before, reference.value.base.value;
             && before.device == captured.device && before.inode == captured.inode
             && before.size == captured.size && before.modified == captured.modified)
  }

  lemma FileHoldsExactly(w: Contents, job: Job, manifest: Manifest, k: nat)
    requires k < |manifest.files|
    ensures var (name, recorded) := manifest.files[k];
            FileHolds(w, job, manifest, k) <==>
            Holds(w, job, recorded, OriginOf(manifest.reference, job.here, name), Captured(name), Published(name), false)
  {
  }

  lemma BaseHoldsExactly(w: Contents, job: Job, manifest: Manifest)
    ensures BaseHolds(w, job, manifest) <==>
            Holds(w, job, manifest.base, OriginOfBase(manifest.reference, job.here), CapturedBase, PublishedBase, true)
  {
  }

  /** What a run demands: the checks of the metadata, every file, the base image, and every artifact of the runtime. */
  lemma MatchesExactly(w: Contents, manifest: Manifest, job: Job)
    ensures Matches(w, manifest, job) <==>
              && job.inspected && manifest.version in {1, 2} && job.runtimeFound
              && (forall k: nat | k < |manifest.files| :: FileHolds(w, job, manifest, k))
              && BaseHolds(w, job, manifest)
              && forall k | 0 <= k < |manifest.runtime| ::
                   job.eyes(Artifact(manifest.runtime[k].0)).Seen?
                   && w(IdentityOf(job.eyes(Artifact(manifest.runtime[k].0)).before)) == manifest.runtime[k].1
  {
    hide Agreed, Holds, FileHolds, BaseHolds;
    forall k: nat | k < |manifest.files|
      ensures FileHolds(w, job, manifest, k) <==> FileAgreed(w, job, manifest.files[k], manifest.reference).Some?
    {
      var (name, recorded) := manifest.files[k];
      FileHoldsExactly(w, job, manifest, k);
      AgreedMeans(w, job, recorded, OriginOf(manifest.reference, job.here, name), Captured(name), Published(name), false);
    }
    BaseHoldsExactly(w, job, manifest);
    AgreedMeans(w, job, manifest.base, OriginOfBase(manifest.reference, job.here), CapturedBase, PublishedBase, true);
  }

  /**
   * What a pass says of the files, whatever happened to them meanwhile: each file, the base image and each artifact was
   * found with its recorded hash, or with that of its unchanged frozen source; and what a rewritten manifest records is
   * what was found.
   */
  lemma PassMeans(w: Contents, s: State, handed: Receipts, reuse: bool, job: Job, fingerprint: Manifest -> string)
    requires Trustworthy(w, s) && Honest(w, handed) && AllFaithful(w, job)
    requires Passes(VerifiedBy(s, handed, reuse, job, fingerprint))
    ensures forall k: nat | k < |s.manifest.files| :: FileHolds(w, job, s.manifest, k)
    ensures BaseHolds(w, job, s.manifest)
    ensures RuntimeAgrees(w, job, s.manifest.runtime)
    ensures s.manifest.version == 2 ==>
              var after := VerifiedBy(s, handed, reuse, job, fingerprint).manifest;
              && after.base == Truth(w, job, PublishedBase)
              && |after.files| == |s.manifest.files|
              && forall k | 0 <= k < |after.files| ::
                   after.files[k] == (s.manifest.files[k].0, Truth(w, job, Published(s.manifest.files[k].0)))
  {
    PassedIsTrue(w, s, handed, reuse, job, fingerprint);
    hide VerifiedBy, Agreed, Holds, Truth, RuntimeAgrees, Trustworthy, Honest, AllFaithful, FileHolds, BaseHolds;
    var reference := s.manifest.reference;
    forall k: nat | k < |s.manifest.files|
      ensures FileHolds(w, job, s.manifest, k)
      ensures FileAgreed(w, job, s.manifest.files[k], reference) == Truth(w, job, Published(s.manifest.files[k].0))
    {
      var (name, recorded) := s.manifest.files[k];
      assert FileAgreed(w, job, s.manifest.files[k], reference).Some?;
      FileHoldsExactly(w, job, s.manifest, k);
      AgreedMeans(w, job, recorded, OriginOf(reference, job.here, name), Captured(name), Published(name), false);
    }
    BaseHoldsExactly(w, job, s.manifest);
    AgreedMeans(w, job, s.manifest.base, OriginOfBase(reference, job.here), CapturedBase, PublishedBase, true);
  }

  /* Histories: runs one after another, each completed or cut short by a crash. */

  datatype Step = Step(handed: Receipts, reuse: bool, job: Job, finished: bool)

  predicate Succeeds(s: State, step: Step, fingerprint: Manifest -> string) {
    Examine(s.manifest, Trusted(s, step.handed, step.reuse, fingerprint), step.job).success.Some?
  }

  /** A crash leaves a running status; it may come after the pinned manifest was written and before the final status. */
  ghost predicate Next(s: State, s': State, step: Step, fingerprint: Manifest -> string) {
    var end := VerifiedBy(s, step.handed, step.reuse, step.job, fingerprint);
    if step.finished then s' == end
    else
      && s'.status.Some? && s'.status.value == Started(s, fingerprint).(checked := s'.status.value.checked)
      && s'.status.value.checked <= end.status.value.checked
      && (s'.manifest == s.manifest || s'.manifest == end.manifest)
  }

  ghost predicate History(states: seq<State>, steps: seq<Step>, fingerprint: Manifest -> string) {
    && |states| == |steps| + 1
    && forall i | 0 <= i < |steps| :: Next(states[i], states[i + 1], steps[i], fingerprint)
  }

  /** Every receipt that any history leaves is true. */
  lemma {:induction false} ReceiptsStayTrue(w: Contents, states: seq<State>, steps: seq<Step>,
                                            fingerprint: Manifest -> string, n: nat)
    requires History(states, steps, fingerprint) && n < |states| && Trustworthy(w, states[0])
    requires forall i | 0 <= i < |steps| :: Honest(w, steps[i].handed) && AllFaithful(w, steps[i].job)
    ensures Trustworthy(w, states[n])
  {
    hide VerifiedBy, AllFaithful;
    if n > 0 {
      ReceiptsStayTrue(w, states, steps, fingerprint, n - 1);
      var step := steps[n - 1];
      assert Next(states[n - 1], states[n], step, fingerprint);
      PassedIsTrue(w, states[n - 1], step.handed, step.reuse, step.job, fingerprint);
    }
  }

  /** No pinned hash is dropped or replaced. */
  ghost predicate Keeps(was: Manifest, now: Manifest) {
    && |now.files| == |was.files|
    && (forall k | 0 <= k < |was.files| ::
          now.files[k].0 == was.files[k].0 && (was.files[k].1.Some? ==> now.files[k].1 == was.files[k].1))
    && (was.base.Some? ==> now.base == was.base)
    && now.runtime == was.runtime && now.id == was.id && now.version == was.version
  }

  lemma {:induction false} FilesKeep(files: Dict<string, Option<Hash>>, verified: Receipts, job: Job,
                                     reference: Option<Reference>)
    requires Files(files, verified, job, reference).ok
    ensures
      var pinned := Files(files, verified, job, reference).pinned;
      && |pinned| == |files|
      && forall k | 0 <= k < |files| ::
           pinned[k].0 == files[k].0 && (files[k].1.Some? ==> pinned[k].1 == files[k].1)
  {
    hide Digest, Compare;
    if files != [] {
      FilesKeep(files[..|files| - 1], verified, job, reference);
    }
  }

  lemma StepKeeps(s: State, s': State, step: Step, fingerprint: Manifest -> string)
    requires Next(s, s', step, fingerprint)
    ensures Keeps(s.manifest, s'.manifest)
    ensures s'.manifest != s.manifest ==> Succeeds(s, step, fingerprint)
  {
    hide Files, Digest, Compare, Runtime;
    var verified := Trusted(s, step.handed, step.reuse, fingerprint);
    if Succeeds(s, step, fingerprint) {
      FilesKeep(s.manifest.files, verified, step.job, s.manifest.reference);
    }
  }

  /** A hash that was pinned once never changes, through any history. */
  lemma {:induction false} PinsNeverChange(states: seq<State>, steps: seq<Step>, fingerprint: Manifest -> string,
                                           i: nat, j: nat)
    requires History(states, steps, fingerprint) && i <= j < |states|
    ensures Keeps(states[i].manifest, states[j].manifest)
    decreases j
  {
    hide Next;
    if i < j {
      PinsNeverChange(states, steps, fingerprint, i, j - 1);
      StepKeeps(states[j - 1], states[j], steps[j - 1], fingerprint);
    }
  }

  /** A completed run refuses the snapshot exactly when it failed; a crash before success changes nothing. */
  lemma RefusalIsExact(s: State, s': State, step: Step, fingerprint: Manifest -> string)
    requires Next(s, s', step, fingerprint)
    ensures step.finished ==> (Refused(s', fingerprint) <==> !Succeeds(s, step, fingerprint))
    ensures !step.finished && !Succeeds(s, step, fingerprint) ==> (Refused(s', fingerprint) <==> Refused(s, fingerprint))
  {
    hide Examine;
  }

  /** A failed snapshot stays refused until some run gets through every comparison. */
  lemma {:induction false} FailureIsRemembered(states: seq<State>, steps: seq<Step>, fingerprint: Manifest -> string,
                                               n: nat)
    requires History(states, steps, fingerprint) && n < |states| && Refused(states[0], fingerprint)
    requires forall i | 0 <= i < |steps| :: !Succeeds(states[i], steps[i], fingerprint)
    ensures Refused(states[n], fingerprint) && states[n].manifest == states[0].manifest
  {
    hide Next, Succeeds, Refused;
    if n > 0 {
      FailureIsRemembered(states, steps, fingerprint, n - 1);
      StepKeeps(states[n - 1], states[n], steps[n - 1], fingerprint);
      RefusalIsExact(states[n - 1], states[n], steps[n - 1], fingerprint);
    }
  }

  /** Every hash a pass would pin is recorded already. */
  predicate FullyPinned(manifest: Manifest) {
    manifest.base.Some? && forall k | 0 <= k < |manifest.files| :: manifest.files[k].1.Some?
  }

  lemma PinRecords(m: Memo, verified: Receipts, job: Job, recorded: Option<Hash>, origin: Option<Stamp>, source: Role,
                   copy: Role, base: bool)
    requires recorded.Some? && Pin(m, verified, job, recorded, origin, source, copy, base).Some?
    ensures Some(Pin(m, verified, job, recorded, origin, source, copy, base).value.0) == recorded
  {
    hide Digest, Compare;
  }

  /** A pass leaves the files as they are exactly when every hash was recorded. */
  lemma {:induction false} FilesPinned(files: Dict<string, Option<Hash>>, verified: Receipts, job: Job,
                                       reference: Option<Reference>)
    requires Files(files, verified, job, reference).ok
    ensures Files(files, verified, job, reference).pinned == files <==> forall k | 0 <= k < |files| :: files[k].1.Some?
    ensures forall k | 0 <= k < |files| ::
              k < |Files(files, verified, job, reference).pinned| && Files(files, verified, job, reference).pinned[k].1.Some?
  {
    hide Digest, Compare, Pin;
    FilesKeep(files, verified, job, reference);
    if files != [] {
      FilesPinned(files[..|files| - 1], verified, job, reference);
    }
  }

  /**
   * Receipts of a pass serve the next run exactly when the snapshot has an identifier, or its manifest is not rewritten
   * or has nothing left to pin: a manifest known by its fingerprint is another manifest once hashes are added to it.
   */
  lemma ReceiptsServeNext(s: State, s': State, step: Step, fingerprint: Manifest -> string)
    requires Next(s, s', step, fingerprint) && step.finished && Succeeds(s, step, fingerprint)
    requires forall a, b :: fingerprint(a) == fingerprint(b) ==> a == b
    ensures Previous(s', fingerprint).Some? <==>
              s.manifest.id != "" || s.manifest.version != 2 || FullyPinned(s.manifest)
  {
    StepKeeps(s, s', step, fingerprint);
    PassPins(s.manifest, Trusted(s, step.handed, step.reuse, fingerprint), step.job);
    hide Examine, FullyPinned;
  }

  lemma PassPins(manifest: Manifest, verified: Receipts, job: Job)
    requires Examine(manifest, verified, job).success.Some?
    ensures Examine(manifest, verified, job).success.value.0 == manifest <==> FullyPinned(manifest)
  {
    hide Files, Pin, Runtime;
    FilesPinned(manifest.files, verified, job, manifest.reference);
    var memo := Files(manifest.files, verified, job, manifest.reference).memo;
    if manifest.base.Some? {
      PinRecords(memo, verified, job, manifest.base, OriginOfBase(manifest.reference, job.here), CapturedBase,
                 PublishedBase, true);
    }
  }

  /* Receipts. */

  /** A receipt for the very file spares reading it. */
  lemma ReceiptSpares(m: Memo, verified: Receipts, job: Job, role: Role, before: Stamp, hash: Hash)
    requires job.eyes(role) == Seen(before, None)
    requires job.place(role) in verified && verified[job.place(role)] == Receipt(before, hash)
    ensures Digest(m, verified, job, role, None, Some(hash), false).Some?
    ensures Digest(m, verified, job, role, None, Some(hash), false).value.0 == hash
  {
  }

  /** The receipts a run may use: those handed to it first, and those of a pass of this very snapshot if it is told to. */
  lemma TrustedExactly(s: State, handed: Receipts, reuse: bool, fingerprint: Manifest -> string, p: Path, r: Receipt)
    ensures (p in Trusted(s, handed, reuse, fingerprint) && Trusted(s, handed, reuse, fingerprint)[p] == r) <==>
              || (p in handed && handed[p] == r)
              || (&& p !in handed && reuse && s.status.Some? && s.status.value.result == Passed
                  && s.status.value.id == (if s.manifest.id != "" then s.manifest.id else fingerprint(s.manifest))
                  && p in s.status.value.verified && s.status.value.verified[p] == r)
  {
  }

  /** The receipt is for a file that some of these roles found, and which has not changed since. */
  ghost predicate Found(job: Job, roles: set<Role>, p: Path, r: Receipt) {
    exists role | role in roles ::
      job.place(role) == p && job.eyes(role).Seen? && IdentityOf(r.stamp) == IdentityOf(job.eyes(role).before)
  }

  /** There is a receipt for every one of these roles, and no other. */
  ghost predicate Leaves(job: Job, roles: set<Role>, receipts: Receipts) {
    && (forall role | role in roles :: job.place(role) in receipts)
    && (forall p | p in receipts :: Found(job, roles, p, receipts[p]))
  }

  lemma FoundMore(job: Job, roles: set<Role>, more: set<Role>, p: Path, r: Receipt)
    requires Found(job, roles, p, r) && roles <= more
    ensures Found(job, more, p, r)
  {
  }

  lemma DigestLeaves(m: Memo, verified: Receipts, job: Job, role: Role, wanted: Option<Stamp>, expected: Option<Hash>,
                     base: bool, roles: set<Role>)
    requires Leaves(job, roles, m.receipts) && Digest(m, verified, job, role, wanted, expected, base).Some?
    ensures Leaves(job, roles + {role}, Digest(m, verified, job, role, wanted, expected, base).value.1.receipts)
  {
    var after := Digest(m, verified, job, role, wanted, expected, base).value.1.receipts;
    var more := roles + {role};
    assert role in more;
    forall p | p in after ensures Found(job, more, p, after[p]) {
      if p != job.place(role) {
        FoundMore(job, roles, more, p, m.receipts[p]);
      }
    }
  }

  lemma PinLeaves(m: Memo, verified: Receipts, job: Job, recorded: Option<Hash>, origin: Option<Stamp>, source: Role,
                  copy: Role, base: bool, roles: set<Role>)
    requires Leaves(job, roles, m.receipts) && Pin(m, verified, job, recorded, origin, source, copy, base).Some?
    ensures Leaves(job, roles + (if recorded.Some? then {} else {source}) + {copy},
                   Pin(m, verified, job, recorded, origin, source, copy, base).value.1.receipts)
  {
    hide Digest, Leaves;
    if recorded.Some? {
      DigestLeaves(m, verified, job, copy, None, recorded, false, roles);
      assert roles + {} == roles;
    } else {
      DigestLeaves(m, verified, job, source, origin, None, base, roles);
      var (hash, memo) := Digest(m, verified, job, source, origin, None, base).value;
      DigestLeaves(memo, verified, job, copy, None, Some(hash), false, roles + {source});
    }
  }

  /** The copies of the files, and the frozen sources of those without a hash. */
  function FileRoles(files: Dict<string, Option<Hash>>): set<Role> {
    if files == [] then {}
    else
      var (name, recorded) := files[|files| - 1];
      FileRoles(files[..|files| - 1]) + (if recorded.Some? then {} else {Captured(name)}) + {Published(name)}
  }

  function RuntimeRoles(runtime: Dict<string, Hash>): set<Role> {
    if runtime == [] then {} else RuntimeRoles(runtime[..|runtime| - 1]) + {Artifact(runtime[|runtime| - 1].0)}
  }

  lemma {:induction false} FilesLeave(files: Dict<string, Option<Hash>>, verified: Receipts, job: Job,
                                      reference: Option<Reference>)
    requires Files(files, verified, job, reference).ok
    ensures Leaves(job, FileRoles(files), Files(files, verified, job, reference).memo.receipts)
  {
    hide Pin, Leaves;
    if files == [] {
      NothingLeft(job);
    } else {
      var n := |files| - 1;
      FilesLeave(files[..n], verified, job, reference);
      var front := Files(files[..n], verified, job, reference);
      var (name, recorded) := files[n];
      PinLeaves(front.memo, verified, job, recorded, OriginOf(reference, job.here, name), Captured(name), Published(name),
                false, FileRoles(files[..n]));
    }
  }

  lemma NothingLeft(job: Job)
    ensures Leaves(job, {}, map[])
  {
  }

  lemma {:induction false} RuntimeLeaves(runtime: Dict<string, Hash>, m: Memo, verified: Receipts, job: Job, roles: set<Role>)
    requires Leaves(job, roles, m.receipts) && Runtime(runtime, m, verified, job).Some?
    ensures Leaves(job, roles + RuntimeRoles(runtime), Runtime(runtime, m, verified, job).value.receipts)
  {
    hide Digest, Leaves;
    if runtime == [] {
      assert roles + {} == roles;
    } else {
      var n := |runtime| - 1;
      RuntimeLeaves(runtime[..n], m, verified, job, roles);
      var front, role := Runtime(runtime[..n], m, verified, job).value, Artifact(runtime[n].0);
      DigestLeaves(front, verified, job, role, None, Some(runtime[n].1), false, roles + RuntimeRoles(runtime[..n]));
      assert roles + RuntimeRoles(runtime[..n]) + {role} == roles + RuntimeRoles(runtime);
    }
  }

  /** Every file a run looks at. */
  function Roles(manifest: Manifest): set<Role> {
    FileRoles(manifest.files) + (if manifest.base.Some? then {} else {CapturedBase}) + {PublishedBase}
    + RuntimeRoles(manifest.runtime)
  }

  /** A pass leaves a receipt for every file it looked at, as it found it, and no other. */
  lemma PassLeavesReceipts(s: State, handed: Receipts, reuse: bool, job: Job, fingerprint: Manifest -> string)
    requires Passes(VerifiedBy(s, handed, reuse, job, fingerprint))
    ensures Leaves(job, Roles(s.manifest), VerifiedBy(s, handed, reuse, job, fingerprint).status.value.verified)
  {
    hide Files, Pin, Runtime, Leaves, FileRoles, RuntimeRoles;
    var verified, manifest := Trusted(s, handed, reuse, fingerprint), s.manifest;
    FilesLeave(manifest.files, verified, job, manifest.reference);
    var files := Files(manifest.files, verified, job, manifest.reference);
    var origin := OriginOfBase(manifest.reference, job.here);
    PinLeaves(files.memo, verified, job, manifest.base, origin, CapturedBase, PublishedBase, true, FileRoles(manifest.files));
    var memo := Pin(files.memo, verified, job, manifest.base, origin, CapturedBase, PublishedBase, true).value.1;
    RuntimeLeaves(manifest.runtime, memo, verified, job,
                  FileRoles(manifest.files) + (if manifest.base.Some? then {} else {CapturedBase}) + {PublishedBase});
  }

  /**
   * A file that has to be read is accepted exactly if it is the one wanted and nothing changed it meanwhile: at most its
   * change time may differ afterwards, and that only of the base image or with the expected hash.
   */
  lemma ReadAcceptedExactly(m: Memo, verified: Receipts, job: Job, role: Role, wanted: Option<Stamp>, expected: Option<Hash>,
                            base: bool, before: Stamp, after: Stamp, hash: Hash)
    requires job.eyes(role) == Seen(before, Some(Reading(hash, after)))
    requires before !in m.cache && job.place(role) !in verified
    ensures Digest(m, verified, job, role, wanted, expected, base).Some? <==>
              && (wanted.Some? ==>
                    || before == wanted.value
                    || (&& base && before.device == wanted.value.device && before.inode == wanted.value.inode
                        && before.size == wanted.value.size && before.modified == wanted.value.modified))
              && (|| after == before
                  || (&& after.device == before.device && after.inode == before.inode && after.size == before.size
                      && after.modified == before.modified && (base || expected == Some(hash))))
    ensures Digest(m, verified, job, role, wanted, expected, base).Some? ==>
              && Digest(m, verified, job, role, wanted, expected, base).value.0 == hash
              && Digest(m, verified, job, role, wanted, expected, base).value.1.receipts
                 == m.receipts[job.place(role) := Receipt(after, hash)]
  {
  }

  /** A receipt for another signature or another hash is as good as none. */
  lemma OtherReceiptsUnused(m: Memo, verified: Receipts, job: Job, role: Role, wanted: Option<Stamp>, expected: Option<Hash>,
                            base: bool)
    requires job.place(role) in verified && job.eyes(role).Seen?
    requires verified[job.place(role)].stamp != job.eyes(role).before || expected != Some(verified[job.place(role)].hash)
    ensures Digest(m, verified, job, role, wanted, expected, base)
            == Digest(m, verified - {job.place(role)}, job, role, wanted, expected, base)
  {
  }

  lemma {:induction false} FilesPassed(files: Dict<string, Option<Hash>>, verified: Receipts, job: Job,
                                       reference: Option<Reference>)
    ensures Names(Files(files, verified, job, reference).pinned) <= Names(files)
    ensures Files(files, verified, job, reference).ok ==> Names(Files(files, verified, job, reference).pinned) == Names(files)
  {
    hide Pin;
    if files != [] {
      FilesPassed(files[..|files| - 1], verified, job, reference);
      var front := Files(files[..|files| - 1], verified, job, reference);
      var (name, recorded) := files[|files| - 1];
      if front.ok {
        match Pin(front.memo, verified, job, recorded, OriginOf(reference, job.here, name), Captured(name),
                  Published(name), false) {
          case None =>
          case Some(pinned) => NamesNext(front.pinned, name, Some(pinned.0));
        }
      }
    }
  }

  /** The status lists the files that were found right, in the order of the manifest: all of them after a pass. */
  lemma CheckedExactly(s: State, handed: Receipts, reuse: bool, job: Job, fingerprint: Manifest -> string)
    ensures var after := VerifiedBy(s, handed, reuse, job, fingerprint);
            && after.status.Some? && after.status.value.checked <= Names(s.manifest.files)
            && (Passes(after) ==> after.status.value.checked == Names(s.manifest.files))
  {
    hide Files, Pin, Runtime, Names;
    FilesFirst(Trusted(s, handed, reuse, fingerprint), job, s.manifest.reference);
    FilesPassed(s.manifest.files, Trusted(s, handed, reuse, fingerprint), job, s.manifest.reference);
  }
}
