/** The lock file that keeps two refreshes of one cache from running at once, as interleaved steps. */
module LockProtocol {

  type Pid = nat

  /** The lock file: the process that created it and its modification time. */
  datatype Lock = Absent | Present(creator: Pid, mtime: nat)

  /** A refresher takes the lock; a reader with an old cache only breaks a stale lock and starts a refresher. */
  datatype Role = Refresher | Reader

  /** Where a process is. Between two of these it touches shared state at most once. */
  datatype Pc =
    | Idle(role: Role)
    | Checking(role: Role)             // os.path.exists on the lock file
    | Dating(role: Role)               // the file was there; os.path.getmtime comes next
    | Dated(role: Role, mtime: nat, at: nat)  // mtime was read at this time; time.time() comes next
    | Removing(role: Role)             // the lock was found stale; os.remove comes next
    | Creating(attempt: nat)           // os.open with O_CREAT and O_EXCL
    | Waiting(attempt: nat)            // the create failed; sleeping
    | Holding(since: nat)              // the lock was created at this time; cleanup_lock will run at exit
    | Gone
    | Dead                             // killed, without cleanup

  datatype State = State(now: nat, lock: Lock, procs: map<Pid, Pc>)

  datatype Action =
    | Tick(d: nat)          // time passes
    | Advance(p: Pid)       // the next step of p
    | GiveUp(p: Pid)        // p finds a fresh cache while waiting, or is refused permission to create
    | Touch(p: Pid)         // p writes its number into the file it created
    | Kill(p: Pid)

  /** Times are in milliseconds. */
  const STALE_AFTER: nat := 35_000
  const STALE_FOR_READER: nat := 45_000
  const ATTEMPTS: nat := 28

  function Limit(role: Role): (limit: nat) {
    if role.Refresher? then STALE_AFTER else STALE_FOR_READER
  }

  /** After looking at the old lock a refresher tries to create its own; a reader is done. */
  function Onward(role: Role): (pc: Pc) {
    if role.Refresher? then Creating(0) else Gone
  }

  function Moved(s: State, p: Pid, pc: Pc): (t: State) {
    s.(procs := s.procs[p := pc])
  }

  /** The next step of p, branch by branch. */
  function Stepped(s: State, p: Pid): (t: State)
    requires p in s.procs
  {
    match s.procs[p]
    case Idle(role) => Moved(s, p, Checking(role))
    case Checking(role) => Moved(s, p, if s.lock.Absent? then Onward(role) else Dating(role))
    case Dating(role) => Moved(s, p, if s.lock.Absent? then Onward(role) else Dated(role, s.lock.mtime, s.now))
    case Dated(role, mtime, at) => Moved(s, p, if s.now - mtime > Limit(role) then Removing(role) else Onward(role))
    case Removing(role) => Moved(s, p, Onward(role)).(lock := Absent)
    case Creating(attempt) =>
      if attempt >= ATTEMPTS then Moved(s, p, Gone)
      else if s.lock.Absent? then Moved(s, p, Holding(s.now)).(lock := Present(p, s.now))
      else Moved(s, p, Waiting(attempt))
    case Waiting(attempt) => Moved(s, p, Creating(attempt + 1))
    case Holding(since) => Moved(s, p, Gone).(lock := Absent)
    case Gone => s
    case Dead => s
  }

  function Apply(s: State, a: Action): (t: State) {
    match a
    case Tick(d) => s.(now := s.now + d)
    case Advance(p) => if p in s.procs then Stepped(s, p) else s
    case GiveUp(p) =>
      if p in s.procs && s.procs[p].Waiting? then Moved(s, p, Gone)
      else if p in s.procs && s.procs[p].Creating? && s.procs[p].attempt < ATTEMPTS
      then Moved(s, p, Waiting(s.procs[p].attempt))
      else s
    case Touch(p) =>
      if p in s.procs && s.procs[p].Holding? && s.lock.Present? && s.lock.creator == p
      then s.(lock := Present(p, s.now)) else s
    case Kill(p) => if p in s.procs && !s.procs[p].Gone? then Moved(s, p, Dead) else s
  }

  datatype Run = End | Then(a: Action, rest: Run)

  function After(s: State, run: Run): (last: State)
    decreases run
  {
    match run
    case End => s
    case Then(a, rest) => After(Apply(s, a), rest)
  }

  /** A run that takes the steps of p one after another. */
  function Steps(p: Pid, n: nat, run: Run): (r: Run) {
    if n == 0 then run else Then(Advance(p), Steps(p, n - 1, run))
  }

  /** Nobody has started and there is no lock file. */
  ghost predicate Initial(s: State) {
    s.lock.Absent? && forall p :: p in s.procs ==> s.procs[p].Idle?
  }

  // ----- mutual exclusion

  ghost predicate Holds(s: State, p: Pid) {
    p in s.procs && s.procs[p].Holding?
  }

  ghost predicate Exclusive(s: State) {
    forall p, q :: Holds(s, p) && Holds(s, q) ==> p == q
  }

  /** Every holder finds its own lock file in place. */
  ghost predicate Owned(s: State) {
    forall p :: Holds(s, p) ==> s.lock.Present? && s.lock.creator == p
  }

  /** This step removes the lock of a process that is still between creation and cleanup. */
  ghost predicate BreaksLive(s: State, a: Action) {
    a.Advance? && a.p in s.procs && s.procs[a.p].Removing? && s.lock.Present? && Holds(s, s.lock.creator)
  }

  ghost predicate NoLiveBreak(s: State, run: Run)
    decreases run
  {
    match run
    case End => true
    case Then(a, rest) => !BreaksLive(s, a) && NoLiveBreak(Apply(s, a), rest)
  }

  /**
   In every run in which no stale break hits a live holder, the lock is exclusive and present while held. Processes
   may be killed at any moment, and locks they leave behind may be broken.
   */
  lemma {:induction false} ExclusiveUnlessLiveBreak(s: State, run: Run)
    requires Owned(s) && NoLiveBreak(s, run)
    ensures Owned(After(s, run)) && Exclusive(After(s, run))
    decreases run
  {
    match run
    case End =>
    case Then(a, rest) =>
      OwnedStep(s, a);
      ExclusiveUnlessLiveBreak(Apply(s, a), rest);
  }

  lemma OwnedStep(s: State, a: Action)
    requires Owned(s) && !BreaksLive(s, a)
    ensures Owned(Apply(s, a))
  {
    var t := Apply(s, a);
    if a.Advance? && Holds(s, a.p) {
      assert s.lock.creator == a.p;
    }
    forall p | Holds(t, p) ensures t.lock.Present? && t.lock.creator == p {
      assert Holds(s, p) ==> s.lock.Present? && s.lock.creator == p;
    }
  }

  /** The state after n steps of p. */
  function Alone(s: State, p: Pid, n: nat): (t: State)
    requires p in s.procs
    ensures p in t.procs && t.now == s.now
  {
    if n == 0 then s else Stepped(Alone(s, p, n - 1), p)
  }

  lemma {:induction false} AloneIsRun(s: State, p: Pid, n: nat, run: Run)
    requires p in s.procs
    ensures After(s, Steps(p, n, run)) == After(Alone(s, p, n), run)
    decreases n
  {
    if n > 0 {
      AloneIsRun(Stepped(s, p), p, n - 1, run);
      AloneShift(s, p, n - 1);
    }
  }

  lemma {:induction false} AloneShift(s: State, p: Pid, n: nat)
    requires p in s.procs
    ensures Alone(Stepped(s, p), p, n) == Alone(s, p, n + 1)
  {
    if n > 0 {
      AloneShift(s, p, n - 1);
    }
  }

  // ----- who acquires the lock, and who gives up

  /** This step was a failed create of p: it was about to create and now waits. */
  ghost predicate Refused(s: State, a: Action, p: Pid) {
    p in s.procs && s.procs[p].Creating? && p in Apply(s, a).procs && Apply(s, a).procs[p].Waiting?
  }

  /** How many creates of p failed in the run. */
  ghost function Refusals(s: State, run: Run, p: Pid): (n: nat)
    decreases run
  {
    match run
    case End => 0
    case Then(a, rest) => (if Refused(s, a, p) then 1 else 0) + Refusals(Apply(s, a), rest, p)
  }

  ghost predicate EverHolds(s: State, run: Run, p: Pid)
    decreases run
  {
    Holds(s, p) || match run case End => false case Then(a, rest) => EverHolds(Apply(s, a), rest, p)
  }

  /** p is not killed, and never finds a fresh cache while waiting. */
  ghost predicate LeftAlone(s: State, run: Run, p: Pid)
    decreases run
  {
    match run
    case End => true
    case Then(a, rest) =>
      a != Kill(p) && !(a == GiveUp(p) && p in s.procs && s.procs[p].Waiting?) && LeftAlone(Apply(s, a), rest, p)
  }

  /** A refresher at this point has seen n of its creates fail. */
  ghost predicate HasTried(pc: Pc, n: nat) {
    match pc
    case Creating(attempt) => attempt == n <= 28
    case Waiting(attempt) => attempt + 1 == n <= 28
    case Gone => n == 28
    case Idle(role) => role.Refresher? && n == 0
    case Checking(role) => role.Refresher? && n == 0
    case Dating(role) => role.Refresher? && n == 0
    case Dated(role, _, _) => role.Refresher? && n == 0
    case Removing(role) => role.Refresher? && n == 0
    case _ => false
  }

  lemma {:induction false} TriesCounted(s: State, run: Run, p: Pid, n: nat)
    requires p in s.procs && HasTried(s.procs[p], n) && LeftAlone(s, run, p) && !EverHolds(s, run, p)
    ensures p in After(s, run).procs && HasTried(After(s, run).procs[p], n + Refusals(s, run, p))
    decreases run
  {
    match run
    case End =>
    case Then(a, rest) =>
      assert !EverHolds(Apply(s, a), rest, p);
      assert !Holds(Apply(s, a), p);
      TriesCounted(Apply(s, a), rest, p, if Refused(s, a, p) then n + 1 else n);
  }

  /** A refresher that has never held the lock has seen at most 28 creates fail, and has left only after exactly 28. */
  lemma LeavesAfterAllAttempts(s: State, run: Run, p: Pid)
    requires p in s.procs && s.procs[p] == Idle(Refresher) && LeftAlone(s, run, p) && !EverHolds(s, run, p)
    ensures p in After(s, run).procs && Refusals(s, run, p) <= 28
    ensures After(s, run).procs[p].Gone? ==> Refusals(s, run, p) == 28
    ensures !After(s, run).procs[p].Dead?
  {
    TriesCounted(s, run, p, 0);
  }

  /** Its next create succeeds when there is no lock file by then. */
  lemma CreatesWhenFree(t: State, p: Pid)
    requires p in t.procs && t.lock.Absent? && t.procs[p].Creating? && t.procs[p].attempt < 28
    ensures Holds(Apply(t, Advance(p)), p) && Apply(t, Advance(p)).lock == Present(p, t.now)
  {
  }

  /**
   Whatever has happened before, a refresher that has not held the lock yet and has seen fewer than 28 of its creates
   fail takes the lock with three more steps at most once the lock file is gone; a waiting one with two.
   */
  lemma FreeLockIsTaken(s: State, run: Run, p: Pid) returns (n: nat)
    requires p in s.procs && s.procs[p] == Idle(Refresher) && LeftAlone(s, run, p) && !EverHolds(s, run, p)
    requires Refusals(s, run, p) < 28 && After(s, run).lock.Absent?
    ensures var t := After(s, run);
            && p in t.procs && n <= 3 && (t.procs[p].Waiting? ==> n == 2)
            && Holds(After(t, Steps(p, n, End)), p) && After(t, Steps(p, n, End)).lock == Present(p, t.now)
  {
    TriesCounted(s, run, p, 0);
    n := StepsToTake(After(s, run), p, Refusals(s, run, p));
    AloneIsRun(After(s, run), p, n, End);
  }

  lemma StepsToTake(t: State, p: Pid, k: nat) returns (n: nat)
    requires p in t.procs && t.lock.Absent? && k < 28 && HasTried(t.procs[p], k)
    ensures n <= 3 && Holds(Alone(t, p, n), p) && Alone(t, p, n).lock == Present(p, t.now)
    ensures t.procs[p].Waiting? ==> n == 2
  {
    var u := Stepped(t, p);
    assert Alone(t, p, 1) == u && Alone(t, p, 2) == Stepped(u, p);
    n := if t.procs[p].Creating? then 1 else if u.procs[p].Creating? then 2 else 3;
    assert n == 3 ==> Stepped(u, p).procs[p].Creating? && Stepped(u, p).lock.Absent?;
    assert n == 3 ==> Alone(t, p, 3) == Stepped(Stepped(u, p), p);
  }

  // ----- what a single check does to a lock

  /** Three steps read the time of the lock file. */
  lemma DatesAlone(s: State, p: Pid, role: Role)
    requires p in s.procs && s.procs[p] == Idle(role) && s.lock.Present?
    ensures forall n: nat :: n <= 3 ==> Alone(s, p, n).lock == s.lock
    ensures Alone(s, p, 3).procs[p] == Dated(role, s.lock.mtime, s.now)
  {
    assert Alone(s, p, 1).procs[p] == Checking(role) && Alone(s, p, 1).lock == s.lock;
    assert Alone(s, p, 2).procs[p] == Dating(role) && Alone(s, p, 2).lock == s.lock;
    assert Alone(s, p, 3) == Stepped(Alone(s, p, 2), p);
    forall n: nat | n <= 3 ensures Alone(s, p, n).lock == s.lock {
      assert n == 0 || n == 1 || n == 2 || n == 3;
    }
  }

  /** A lock up to 35 seconds old is left alone by a refresher, an older one is removed and replaced. */
  lemma RefresherChecks(s: State, p: Pid)
    requires p in s.procs && s.procs[p] == Idle(Refresher) && s.lock.Present?
    ensures s.now - s.lock.mtime <= 35_000 ==>
              (forall n: nat :: n <= 5 ==> Alone(s, p, n).lock == s.lock) && Alone(s, p, 5).procs[p].Waiting?
    ensures s.now - s.lock.mtime > 35_000 ==>
              Alone(s, p, 5).lock.Absent? && Holds(Alone(s, p, 6), p) && Alone(s, p, 6).lock == Present(p, s.now)
  {
    DatesAlone(s, p, Refresher);
    var t := Alone(s, p, 3);
    assert Alone(s, p, 4) == Stepped(t, p) && Alone(s, p, 5) == Stepped(Alone(s, p, 4), p);
    assert Alone(s, p, 6) == Stepped(Alone(s, p, 5), p);
    if s.now - s.lock.mtime <= 35_000 {
      forall n: nat | n <= 5 ensures Alone(s, p, n).lock == s.lock {
        assert n <= 3 || n == 4 || n == 5;
      }
    }
  }

  /** A lock up to 45 seconds old is left alone by a reader, an older one is removed; then the reader is done. */
  lemma ReaderChecks(s: State, p: Pid)
    requires p in s.procs && s.procs[p] == Idle(Reader) && s.lock.Present?
    ensures Alone(s, p, 5).procs[p].Gone?
    ensures s.now - s.lock.mtime <= 45_000 ==> forall n: nat :: n <= 5 ==> Alone(s, p, n).lock == s.lock
    ensures s.now - s.lock.mtime > 45_000 ==> Alone(s, p, 5).lock.Absent?
  {
    DatesAlone(s, p, Reader);
    var t := Alone(s, p, 3);
    assert Alone(s, p, 4) == Stepped(t, p) && Alone(s, p, 5) == Stepped(Alone(s, p, 4), p);
    if s.now - s.lock.mtime <= 45_000 {
      forall n: nat | n <= 5 ensures Alone(s, p, n).lock == s.lock {
        assert n <= 3 || n == 4 || n == 5;
      }
    }
  }

  /**
   Writing the process number starts the age of the lock anew: a check d later removes it exactly when d is too long.
   */
  lemma WrittenLockIsFresh(s: State, p: Pid, d: nat, q: Pid)
    requires Owned(s) && Holds(s, p) && q in s.procs && s.procs[q].Idle?
    ensures var t := After(s, Then(Touch(p), Then(Tick(d), Steps(q, 5, End))));
            t.lock.Absent? <==> d > if s.procs[q] == Idle(Refresher) then 35_000 else 45_000
  {
    var t := Apply(Apply(s, Touch(p)), Tick(d));
    assert s.lock.Present? && s.lock.creator == p;
    AloneIsRun(t, q, 5, End);
    assert t.procs[q] == s.procs[q] && (s.procs[q] == Idle(Refresher) || s.procs[q] == Idle(Reader)) by {
      assert s.procs[q].role.Refresher? || s.procs[q].role.Reader?;
    }
    if s.procs[q] == Idle(Refresher) { RefresherChecks(t, q); } else { ReaderChecks(t, q); }
  }

  /** A reader is never among the holders, whatever happens. */
  lemma {:induction false} ReaderNeverHolds(s: State, run: Run, p: Pid)
    requires p in s.procs && Harmless(s.procs[p])
    ensures !EverHolds(s, run, p)
    decreases run
  {
    match run
    case End =>
    case Then(a, rest) => ReaderNeverHolds(Apply(s, a), rest, p);
  }

  /** A reader, or a process that has left or been killed. */
  ghost predicate Harmless(pc: Pc) {
    match pc
    case Idle(role) => role.Reader?
    case Checking(role) => role.Reader?
    case Dating(role) => role.Reader?
    case Dated(role, _, _) => role.Reader?
    case Removing(role) => role.Reader?
    case Gone => true
    case Dead => true
    case _ => false
  }

  /**
   How a process ends: a holder removes the lock file, whosever it is, and is gone; one that finds a fresh cache while
   waiting is gone and one that is killed is dead, and neither touches the lock. That is for good.
   */
  lemma EndsForGood(s: State, run: Run, p: Pid)
    requires p in s.procs
    ensures s.procs[p].Holding? ==>
              Apply(s, Advance(p)).lock.Absent? && Ended(After(Apply(s, Advance(p)), run), p, Gone)
    ensures s.procs[p].Waiting? ==>
              Apply(s, GiveUp(p)).lock == s.lock && Ended(After(Apply(s, GiveUp(p)), run), p, Gone)
    ensures !s.procs[p].Gone? ==> Apply(s, Kill(p)).lock == s.lock && Ended(After(Apply(s, Kill(p)), run), p, Dead)
  {
    if s.procs[p].Holding? { EndedStays(Apply(s, Advance(p)), run, p, Gone); }
    if s.procs[p].Waiting? { EndedStays(Apply(s, GiveUp(p)), run, p, Gone); }
    if !s.procs[p].Gone? { EndedStays(Apply(s, Kill(p)), run, p, Dead); }
  }

  ghost predicate Ended(s: State, p: Pid, pc: Pc) {
    p in s.procs && s.procs[p] == pc && (pc.Gone? || pc.Dead?)
  }

  lemma {:induction false} EndedStays(s: State, run: Run, p: Pid, pc: Pc)
    requires Ended(s, p, pc)
    ensures Ended(After(s, run), p, pc)
    decreases run
  {
    match run
    case End =>
    case Then(a, rest) => EndedStays(Apply(s, a), rest, p, pc);
  }

  // ----- runs within bounds

  /**
   No holder is older than h; nobody dawdles longer than d between reading the file's time and the clock; at most
   this many processes are killed while holding; and, if checks are atomic, nothing happens between reading the
   file's time and acting on it.
   */
  datatype Bounds = Bounds(h: nat, d: nat, kills: nat, atomic: bool)

  ghost predicate Prompt(b: Bounds, s: State) {
    forall p :: p in s.procs ==>
      && (s.procs[p].Holding? ==> s.now - s.procs[p].since <= b.h)
      && (s.procs[p].Dated? ==> s.now - s.procs[p].at <= b.d)
  }

  predicate MidCheck(pc: Pc) {
    pc.Dated? || pc.Removing?
  }

  /** A process in the middle of its check takes the next step. */
  ghost predicate Undisturbed(s: State, a: Action) {
    forall p :: p in s.procs && MidCheck(s.procs[p]) ==> a == Advance(p)
  }

  ghost predicate RunWithin(b: Bounds, s: State, run: Run)
    decreases run
  {
    && Prompt(b, s)
    && match run
       case End => true
       case Then(a, rest) =>
         && (b.atomic ==> Undisturbed(s, a))
         && if a.Kill? && Holds(s, a.p) then b.kills > 0 && RunWithin(b.(kills := b.kills - 1), Apply(s, a), rest)
            else RunWithin(b, Apply(s, a), rest)
  }

  ghost predicate AlwaysExclusive(b: Bounds) {
    forall s, run :: Initial(s) && RunWithin(b, s, run) ==> Exclusive(After(s, run))
  }

  // ----- without kills: when no stale break ever happens

  /** A lock file always has a live creator, no times lie in the future, and no process has found a stale lock. */
  ghost predicate Fresh(h: nat, s: State) {
    && Owned(s)
    && (s.lock.Present? ==> Holds(s, s.lock.creator) && s.procs[s.lock.creator].since <= s.lock.mtime)
    && forall p :: p in s.procs ==>
         && !s.procs[p].Removing?
         && (s.procs[p].Dated? ==> s.procs[p].at - s.procs[p].mtime <= h)
         && (s.procs[p].Holding? ==> s.procs[p].since <= s.now)
  }

  lemma FreshStep(b: Bounds, s: State, a: Action)
    requires Fresh(b.h, s) && Prompt(b, s) && b.h + b.d <= STALE_AFTER && !(a.Kill? && Holds(s, a.p))
    ensures Fresh(b.h, Apply(s, a))
  {
    assert !BreaksLive(s, a);
    OwnedStep(s, a);
    var t := Apply(s, a);
    if a.Advance? && a.p in s.procs {
      assert s.procs[a.p].Holding? ==> Holds(s, a.p);
    }
    if t.lock.Present? && s.lock.Present? {
      assert Holds(s, s.lock.creator);
    }
    forall p | p in t.procs
      ensures !t.procs[p].Removing? && (t.procs[p].Dated? ==> t.procs[p].at - t.procs[p].mtime <= b.h)
      ensures t.procs[p].Holding? ==> t.procs[p].since <= t.now
    {
      assert p in s.procs;
    }
  }

  lemma {:induction false} PromptIsFresh(b: Bounds, s: State, run: Run)
    requires Fresh(b.h, s) && RunWithin(b, s, run) && b.kills == 0 && b.h + b.d <= STALE_AFTER
    ensures Fresh(b.h, After(s, run)) && Exclusive(After(s, run))
    decreases run
  {
    match run
    case End =>
    case Then(a, rest) =>
      FreshStep(b, s, a);
      PromptIsFresh(b, Apply(s, a), rest);
  }

  /** From the start, prompt processes exclude each other when hold and dawdling times fit in 35 seconds together. */
  lemma PromptRunsAreExclusive(b: Bounds, s: State, run: Run)
    requires Initial(s) && RunWithin(b, s, run) && b.kills == 0 && b.h + b.d <= STALE_AFTER
    ensures Exclusive(After(s, run)) && Owned(After(s, run))
    ensures forall p :: p in After(s, run).procs ==> !After(s, run).procs[p].Removing?
  {
    PromptIsFresh(b, s, run);
  }

  // ----- with atomic checks: when stale breaks never hit a live holder

  /** Holders own the lock, which is no older than their hold; who is in the middle of a check has the current facts. */
  ghost predicate Informed(s: State) {
    && Owned(s)
    && forall p :: p in s.procs ==>
         && (s.procs[p].Holding? ==> s.lock.Present? && s.procs[p].since <= s.lock.mtime)
         && (s.procs[p].Dated? ==> s.lock.Present? && s.lock.mtime == s.procs[p].mtime)
         && (s.procs[p].Removing? ==> s.lock.Present? && s.now - s.lock.mtime > STALE_AFTER)
         && (s.procs[p].Holding? ==> s.procs[p].since <= s.now)
  }

  /** A lock with a live owner is never found stale. */
  lemma HeldIsYoung(b: Bounds, s: State, p: Pid)
    requires Informed(s) && Prompt(b, s) && Holds(s, p)
    ensures s.lock.Present? && s.now - s.lock.mtime <= b.h
  {
  }

  lemma InformedStep(b: Bounds, s: State, a: Action)
    requires Informed(s) && Prompt(b, s) && Undisturbed(s, a) && b.h <= STALE_AFTER
    ensures Informed(Apply(s, a))
  {
    if s.lock.Present? && Holds(s, s.lock.creator) { HeldIsYoung(b, s, s.lock.creator); }
    OwnedStep(s, a);
    var t := Apply(s, a);
    if a.Advance? && a.p in s.procs {
      assert s.procs[a.p].Holding? ==> Holds(s, a.p);
    }
    forall p | p in t.procs
      ensures t.procs[p].Holding? ==> t.lock.Present? && t.procs[p].since <= t.lock.mtime && t.procs[p].since <= t.now
      ensures t.procs[p].Dated? ==> t.lock.Present? && t.lock.mtime == t.procs[p].mtime
      ensures t.procs[p].Removing? ==> t.lock.Present? && t.now - t.lock.mtime > STALE_AFTER
    {
      assert p in s.procs && (MidCheck(s.procs[p]) ==> a == Advance(p));
      assert Holds(t, p) ==> t.lock.Present? && t.lock.creator == p;
      assert Holds(s, p) ==> s.lock.Present? && s.lock.creator == p;
    }
  }

  /** Whoever is killed, atomic checks keep the lock exclusive as long as no holder outlives the limit. */
  lemma {:induction false} AtomicRunsAreExclusive(b: Bounds, s: State, run: Run)
    requires Informed(s) && RunWithin(b, s, run) && b.atomic && b.h <= STALE_AFTER
    ensures Informed(After(s, run)) && Exclusive(After(s, run))
    decreases run
  {
    match run
    case End =>
    case Then(a, rest) =>
      InformedStep(b, s, a);
      AtomicRunsAreExclusive(if a.Kill? && Holds(s, a.p) then b.(kills := b.kills - 1) else b, Apply(s, a), rest);
  }

  // ----- runs that break exclusion, built from their ends

  /** From s the run stays within the bounds and ends in last. */
  ghost predicate Leads(b: Bounds, s: State, run: Run, last: State) {
    RunWithin(b, s, run) && After(s, run) == last
  }

  lemma Prepend(b: Bounds, s: State, a: Action, run: Run, last: State)
    requires Prompt(b, s) && !a.Kill? && (b.atomic ==> Undisturbed(s, a)) && Leads(b, Apply(s, a), run, last)
    ensures Leads(b, s, Then(a, run), last)
  {
  }

  /** Nobody else is in the middle of a check, unless checks are not atomic. */
  ghost predicate Clear(b: Bounds, s: State, p: Pid) {
    b.atomic ==> forall q :: q in s.procs && MidCheck(s.procs[q]) ==> q == p
  }

  lemma PromptMoved(b: Bounds, s: State, p: Pid, pc: Pc)
    requires Prompt(b, s) && (pc.Holding? ==> s.now - pc.since <= b.h) && (pc.Dated? ==> s.now - pc.at <= b.d)
    ensures Prompt(b, Moved(s, p, pc))
  {
  }

  /** One step of p that moves it to pc and leaves this lock. */
  lemma StepBefore(b: Bounds, s: State, p: Pid, pc: Pc, lock: Lock, run: Run, last: State)
    requires p in s.procs && Prompt(b, s) && Clear(b, s, p) && Stepped(s, p) == Moved(s, p, pc).(lock := lock)
    requires Leads(b, Moved(s, p, pc).(lock := lock), run, last)
    ensures Leads(b, s, Then(Advance(p), run), last)
  {
    Prepend(b, s, Advance(p), run, last);
  }

  /** An idle process that finds no lock creates it in three steps. */
  lemma Acquires(b: Bounds, s: State, p: Pid, run: Run, last: State)
    requires p in s.procs && s.procs[p] == Idle(Refresher) && s.lock.Absent? && Prompt(b, s) && Clear(b, s, p)
    requires Leads(b, Moved(s, p, Holding(s.now)).(lock := Present(p, s.now)), run, last)
    ensures Leads(b, s, Steps(p, 3, run), last)
  {
    var t, u := Moved(s, p, Checking(Refresher)), Moved(s, p, Creating(0));
    PromptMoved(b, s, p, Checking(Refresher));
    PromptMoved(b, s, p, Creating(0));
    assert Moved(u, p, Holding(s.now)) == Moved(s, p, Holding(s.now)) && Moved(t, p, Creating(0)) == u;
    assert Steps(p, 1, run) == Then(Advance(p), run) && Steps(p, 2, run) == Then(Advance(p), Steps(p, 1, run));
    StepBefore(b, u, p, Holding(s.now), Present(p, s.now), run, last);
    StepBefore(b, t, p, Creating(0), Absent, Steps(p, 1, run), last);
    StepBefore(b, s, p, Checking(Refresher), Absent, Steps(p, 2, run), last);
  }

  /** An idle process that finds a lock reads its time in three steps. */
  lemma Dates(b: Bounds, s: State, p: Pid, run: Run, last: State)
    requires p in s.procs && s.procs[p] == Idle(Refresher) && s.lock.Present? && Prompt(b, s) && Clear(b, s, p)
    requires Leads(b, Moved(s, p, Dated(Refresher, s.lock.mtime, s.now)), run, last)
    ensures Leads(b, s, Steps(p, 3, run), last)
  {
    var dated := Dated(Refresher, s.lock.mtime, s.now);
    var t, u := Moved(s, p, Checking(Refresher)), Moved(s, p, Dating(Refresher));
    PromptMoved(b, s, p, Checking(Refresher));
    PromptMoved(b, s, p, Dating(Refresher));
    assert Moved(u, p, dated) == Moved(s, p, dated) && Moved(t, p, Dating(Refresher)) == u;
    assert Steps(p, 1, run) == Then(Advance(p), run) && Steps(p, 2, run) == Then(Advance(p), Steps(p, 1, run));
    StepBefore(b, u, p, dated, s.lock, run, last);
    StepBefore(b, t, p, Dating(Refresher), s.lock, Steps(p, 1, run), last);
    StepBefore(b, s, p, Checking(Refresher), s.lock, Steps(p, 2, run), last);
  }

  /** A process with a stale verdict removes whatever lock is there by now and creates its own. */
  lemma Breaks(b: Bounds, s: State, p: Pid, run: Run, last: State)
    requires p in s.procs && s.procs[p].Dated? && s.procs[p].role.Refresher? && s.now - s.procs[p].mtime > STALE_AFTER
    requires Prompt(b, s) && Clear(b, s, p)
    requires Leads(b, Moved(s, p, Holding(s.now)).(lock := Present(p, s.now)), run, last)
    ensures Leads(b, s, Steps(p, 3, run), last)
  {
    var t, u := Moved(s, p, Removing(Refresher)), Moved(s, p, Creating(0)).(lock := Absent);
    PromptMoved(b, s, p, Removing(Refresher));
    PromptMoved(b, s, p, Creating(0));
    assert Moved(u, p, Holding(s.now)).(lock := Present(p, s.now))
      == Moved(s, p, Holding(s.now)).(lock := Present(p, s.now));
    assert Moved(t, p, Creating(0)).(lock := Absent) == u;
    assert Steps(p, 1, run) == Then(Advance(p), run) && Steps(p, 2, run) == Then(Advance(p), Steps(p, 1, run));
    StepBefore(b, u, p, Holding(s.now), Present(p, s.now), run, last);
    StepBefore(b, t, p, Creating(0), Absent, Steps(p, 1, run), last);
    StepBefore(b, s, p, Removing(Refresher), s.lock, Steps(p, 2, run), last);
  }

  function Took(s: State, p: Pid): (t: State) {
    Moved(s, p, Holding(s.now)).(lock := Present(p, s.now))
  }

  lemma PromptTook(b: Bounds, s: State, p: Pid)
    requires Prompt(b, s)
    ensures Prompt(b, Took(s, p))
  {
    PromptMoved(b, s, p, Holding(s.now));
  }

  /** Two processes with a stale verdict end up holding together. */
  lemma BothBreak(b: Bounds, s: State, p: Pid, q: Pid) returns (last: State)
    requires !b.atomic && Prompt(b, s) && p != q && p in s.procs && q in s.procs
    requires s.procs[p].Dated? && s.procs[p].role.Refresher? && s.now - s.procs[p].mtime > STALE_AFTER
    requires s.procs[q].Dated? && s.procs[q].role.Refresher? && s.now - s.procs[q].mtime > STALE_AFTER
    ensures Leads(b, s, Steps(p, 3, Steps(q, 3, End)), last) && Holds(last, p) && Holds(last, q)
  {
    var i := Took(s, p);
    last := Took(i, q);
    PromptTook(b, s, p);
    PromptTook(b, i, q);
    Breaks(b, i, q, End, last);
    Breaks(b, s, p, Steps(q, 3, End), last);
  }

  /** A process takes a lock that is not there, and another one with a stale verdict breaks it. */
  lemma AcquiredAndBroken(b: Bounds, s: State, p: Pid, q: Pid) returns (last: State)
    requires !b.atomic && Prompt(b, s) && p != q && p in s.procs && q in s.procs
    requires s.lock.Absent? && s.procs[p] == Idle(Refresher)
    requires s.procs[q].Dated? && s.procs[q].role.Refresher? && s.now - s.procs[q].mtime > STALE_AFTER
    ensures Leads(b, s, Steps(p, 3, Steps(q, 3, End)), last) && Holds(last, p) && Holds(last, q)
  {
    var i := Took(s, p);
    last := Took(i, q);
    PromptTook(b, s, p);
    PromptTook(b, i, q);
    Breaks(b, i, q, End, last);
    Acquires(b, s, p, Steps(q, 3, End), last);
  }

  /** A process dates a stale lock whose holder is still there, and breaks it at once. */
  lemma DatedAndBroken(b: Bounds, s: State, p: Pid, q: Pid) returns (last: State)
    requires Prompt(b, s) && p != q && q in s.procs && Holds(s, p) && s.procs[q] == Idle(Refresher)
    requires forall r :: r in s.procs ==> !MidCheck(s.procs[r])
    requires s.lock.Present? && s.now - s.lock.mtime > STALE_AFTER
    ensures Leads(b, s, Steps(q, 3, Steps(q, 3, End)), last) && Holds(last, p) && Holds(last, q)
  {
    var e := Moved(s, q, Dated(Refresher, s.lock.mtime, s.now));
    last := Took(e, q);
    PromptMoved(b, s, q, Dated(Refresher, s.lock.mtime, s.now));
    PromptTook(b, e, q);
    Breaks(b, e, q, End, last);
    Dates(b, s, q, Steps(q, 3, End), last);
  }

  /** A holder that outlives the limit has its lock broken, atomic check or not. */
  lemma OverlongHoldBreaksExclusion(b: Bounds) returns (s: State, run: Run)
    requires b.h > STALE_AFTER
    ensures Initial(s) && RunWithin(b, s, run) && !Exclusive(After(s, run))
  {
    s := State(0, Absent, map[1 := Idle(Refresher), 2 := Idle(Refresher)]);
    var late := STALE_AFTER + 1;
    var a := Took(s, 1);
    var last := DatedAndBroken(b, a.(now := late), 1, 2);
    run := Steps(2, 3, Steps(2, 3, End));
    Prepend(b, a, Tick(late), run, last);
    run := Then(Tick(late), run);
    Acquires(b, s, 1, run, last);
    run := Steps(1, 3, run);
  }

  /**
   When the times do not fit, reading the file's time and removing the file in separate steps breaks exclusion: a
   process dates the first lock, its holder leaves, a second holder comes, and the stale verdict removes the
   second lock.
   */
  lemma DawdlingBreaksExclusion(b: Bounds) returns (s: State, run: Run)
    requires !b.atomic && b.h + b.d > STALE_AFTER
    ensures Initial(s) && RunWithin(b, s, run) && !Exclusive(After(s, run))
  {
    s := State(0, Absent, map[1 := Idle(Refresher), 2 := Idle(Refresher), 3 := Idle(Refresher)]);
    var c := Took(s, 1).(now := b.h);
    var e := Moved(c, 2, Dated(Refresher, 0, b.h));
    var last;
    run, last := HandsOver(b, e);
    Dates(b, c, 2, run, last);
    run := Steps(2, 3, run);
    Prepend(b, Took(s, 1), Tick(b.h), run, last);
    run := Then(Tick(b.h), run);
    Acquires(b, s, 1, run, last);
    run := Steps(1, 3, run);
  }

  /** The first holder leaves, time passes, and the stale verdict meets the second holder. */
  lemma HandsOver(b: Bounds, e: State) returns (run: Run, last: State)
    requires !b.atomic && b.h + b.d > STALE_AFTER && e.now == b.h && e.lock.Present?
    requires 1 in e.procs && 2 in e.procs && 3 in e.procs && e.procs[1] == Holding(0)
    requires e.procs[2] == Dated(Refresher, 0, b.h) && e.procs[3] == Idle(Refresher)
    requires NewcomersIdle(e, {1, 2})
    ensures Leads(b, e, run, last) && Holds(last, 2) && Holds(last, 3)
  {
    var f := Moved(e, 1, Gone).(lock := Absent);
    run, last := SecondComes(b, f);
    assert Stepped(e, 1) == f;
    assert Prompt(b, e);
    StepBefore(b, e, 1, Gone, Absent, run, last);
    run := Then(Advance(1), run);
  }

  /** All but these have not started. */
  ghost predicate NewcomersIdle(s: State, others: set<Pid>) {
    forall p :: p in s.procs && p !in others ==> s.procs[p].Idle?
  }

  lemma SecondComes(b: Bounds, f: State) returns (run: Run, last: State)
    requires !b.atomic && b.h + b.d > STALE_AFTER && f.now == b.h && f.lock.Absent?
    requires 1 in f.procs && 2 in f.procs && 3 in f.procs && f.procs[1] == Gone
    requires f.procs[2] == Dated(Refresher, 0, b.h) && f.procs[3] == Idle(Refresher)
    requires NewcomersIdle(f, {1, 2})
    ensures Leads(b, f, run, last) && Holds(last, 2) && Holds(last, 3)
  {
    var g := f.(now := b.h + b.d);
    assert Prompt(b, f) && Prompt(b, g);
    last := AcquiredAndBroken(b, g, 3, 2);
    run := Steps(3, 3, Steps(2, 3, End));
    assert Apply(f, Tick(b.d)) == g;
    Prepend(b, f, Tick(b.d), run, last);
    run := Then(Tick(b.d), run);
  }

  /**
   One holder killed is enough, however prompt everyone is: two processes find its lock stale, and the second one
   removes the lock the first one has created by then.
   */
  lemma KillBreaksExclusion(b: Bounds) returns (s: State, run: Run)
    requires !b.atomic && b.kills > 0
    ensures Initial(s) && RunWithin(b, s, run) && !Exclusive(After(s, run))
  {
    s := State(0, Absent, map[1 := Idle(Refresher), 2 := Idle(Refresher), 3 := Idle(Refresher)]);
    var a := Took(s, 1);
    var c := Moved(a, 1, Dead);
    var last;
    run, last := BothFindItStale(b.(kills := b.kills - 1), c);
    assert Leads(b, a, Then(Kill(1), run), last);
    Acquires(b, s, 1, Then(Kill(1), run), last);
    run := Steps(1, 3, Then(Kill(1), run));
  }

  lemma BothFindItStale(b: Bounds, c: State) returns (run: Run, last: State)
    requires !b.atomic && c.now == 0 && c.lock == Present(1, 0)
    requires 1 in c.procs && 2 in c.procs && 3 in c.procs && c.procs[1] == Dead
    requires c.procs[2] == Idle(Refresher) && c.procs[3] == Idle(Refresher) && NewcomersIdle(c, {1})
    ensures Leads(b, c, run, last) && Holds(last, 2) && Holds(last, 3)
  {
    var late := STALE_AFTER + 1;
    var e := c.(now := late);
    assert Prompt(b, c) && Prompt(b, e);
    run, last := BothDate(b, e);
    assert Apply(c, Tick(late)) == e;
    Prepend(b, c, Tick(late), run, last);
    run := Then(Tick(late), run);
  }

  lemma BothDate(b: Bounds, e: State) returns (run: Run, last: State)
    requires !b.atomic && Prompt(b, e) && e.lock.Present? && e.now - e.lock.mtime > STALE_AFTER
    requires 2 in e.procs && 3 in e.procs && e.procs[2] == Idle(Refresher) && e.procs[3] == Idle(Refresher)
    ensures Leads(b, e, run, last) && Holds(last, 2) && Holds(last, 3)
  {
    var dated := Dated(Refresher, e.lock.mtime, e.now);
    var f := Moved(e, 2, dated);
    var g := Moved(f, 3, dated);
    PromptMoved(b, e, 2, dated);
    PromptMoved(b, f, 3, dated);
    last := BothBreak(b, g, 2, 3);
    run := Steps(2, 3, Steps(3, 3, End));
    Dates(b, f, 3, run, last);
    run := Steps(3, 3, run);
    Dates(b, e, 2, run, last);
    run := Steps(2, 3, run);
  }

  /**
   Exactly when every run within the bounds is exclusive. The program's checks are not atomic: then nobody may be
   killed while holding, and hold and dawdling times must fit in the limit together. If they were, the hold time alone
   would have to fit, and kills would do no harm.
   */
  lemma ExclusionExactly(b: Bounds)
    ensures AlwaysExclusive(b) <==> if b.atomic then b.h <= STALE_AFTER else b.kills == 0 && b.h + b.d <= STALE_AFTER
  {
    if b.atomic && b.h <= STALE_AFTER {
      forall s, run | Initial(s) && RunWithin(b, s, run)
        ensures Exclusive(After(s, run))
      {
        AtomicRunsAreExclusive(b, s, run);
      }
    } else if b.h > STALE_AFTER {
      var s, run := OverlongHoldBreaksExclusion(b);
    } else if b.kills > 0 {
      var s, run := KillBreaksExclusion(b);
    } else if b.h + b.d > STALE_AFTER {
      var s, run := DawdlingBreaksExclusion(b);
    } else {
      forall s, run | Initial(s) && RunWithin(b, s, run)
        ensures Exclusive(After(s, run))
      {
        PromptRunsAreExclusive(b, s, run);
      }
    }
  }
}
