/** internal/db/migrations.go: ordered schema migrations that commit at most once, whatever fails. */
module Migrations {

  datatype Migration = Migration(version: int, name: string)

  /** What the database file holds: the migrations whose changes are in the schema, in the order in which they
      were committed, and the rows of schema_migrations in the same order. */
  datatype Store = Store(effects: seq<Migration>, recorded: seq<(int, string)>)

  const EMPTY := Store([], [])

  /** What can go wrong while one migration is applied. A commit that reports an error or is followed by a
      crash may or may not have reached the file. */
  datatype Fault =
    | NoFault
    | BeginFails
    | RunFails
    | RecordFails
    | CommitFails(reachedFile: bool)
    | Crash(reachedFile: bool)

  datatype Outcome = Going | DuplicateVersion | Errored | Crashed

  predicate IsRecorded(recorded: seq<(int, string)>, version: int) {
    exists i :: 0 <= i < |recorded| && recorded[i].0 == version
  }

  /** applySchemaMigration: the change and its row are written in one transaction. */
  function Apply(s: Store, m: Migration, fault: Fault): (Store, Outcome) {
    if fault.BeginFails? || fault.RunFails? then (s, Errored)
    else
      var changed := s.(effects := s.effects + [m]);
      // the version is the primary key of schema_migrations
      if fault.RecordFails? || IsRecorded(s.recorded, m.version) then (s, Errored)
      else
        var written := changed.(recorded := changed.recorded + [(m.version, m.name)]);
        match fault
        case CommitFails(reached) => (if reached then written else s, Errored)
        case Crash(reached) => (if reached then written else s, Crashed)
        case _ => (written, Going)
  }

  predicate SeenBefore(sorted: seq<Migration>, k: nat)
    requires k < |sorted|
  {
    exists j :: 0 <= j < k && sorted[j].version == sorted[k].version
  }

  function FaultAt(faults: seq<Fault>, k: nat): Fault {
    if k < |faults| then faults[k] else NoFault
  }

  /** The loop of runVersionedMigrations over the first k migrations of the sorted list, from the state
      loaded at the start. */
  function Loop(start: Store, sorted: seq<Migration>, faults: seq<Fault>, k: nat): (Store, Outcome)
    requires k <= |sorted|
  {
    if k == 0 then (start, Going)
    else
      var (s, outcome) := Loop(start, sorted, faults, k - 1);
      if outcome != Going then (s, outcome)
      else if SeenBefore(sorted, k - 1) then (s, DuplicateVersion)
      else if IsRecorded(start.recorded, sorted[k - 1].version) then (s, Going)
      else Apply(s, sorted[k - 1], FaultAt(faults, k - 1))
  }

  /** One start of the program; Going means that it came up. */
  function Start(s: Store, sorted: seq<Migration>, faults: seq<Fault>): (Store, Outcome) {
    Loop(s, sorted, faults, |sorted|)
  }

  // ---------- at most once, and recorded exactly when done ----------

  function RowOf(m: Migration): (int, string) {
    (m.version, m.name)
  }

  predicate RowsAreEffects(s: Store) {
    |s.recorded| == |s.effects| && forall i :: 0 <= i < |s.effects| ==> s.recorded[i] == RowOf(s.effects[i])
  }

  predicate EachOnce(s: Store) {
    forall i, j :: 0 <= i < j < |s.recorded| ==> s.recorded[i].0 != s.recorded[j].0
  }

  /** The rows are the committed changes, in order, and no version occurs twice. */
  predicate Sound(s: Store) {
    RowsAreEffects(s) && EachOnce(s)
  }

  lemma {:induction false} ApplyKeepsSound(s: Store, m: Migration, fault: Fault)
    requires Sound(s)
    ensures var (s', outcome) := Apply(s, m, fault);
            && Sound(s')
            && (s' == s || (s'.effects == s.effects + [m] && s'.recorded == s.recorded + [RowOf(m)]
                && !IsRecorded(s.recorded, m.version)))
            && (outcome == Going ==> s' != s)
  {
    var s' := Apply(s, m, fault).0;
    assert |s.effects + [m]| != |s.effects|;
  }

  /** Whether the transaction reaches the file: nothing failed before the commit, and a commit that reported an
      error or was cut off by a crash got through. */
  predicate GetsThrough(fault: Fault) {
    fault == NoFault || (fault.CommitFails? && fault.reachedFile) || (fault.Crash? && fault.reachedFile)
  }

  /** One migration: its change and its row are there afterwards exactly if the transaction got through and the
      version was new; the program goes on only without a fault, and a crash is the only way to end as one. */
  lemma {:induction false} ApplyExactly(s: Store, m: Migration, fault: Fault)
    ensures var (s', outcome) := Apply(s, m, fault);
            var isNew := forall i :: 0 <= i < |s.recorded| ==> s.recorded[i].0 != m.version;
            && s' == (if GetsThrough(fault) && isNew then Store(s.effects + [m],
                s.recorded + [(m.version, m.name)]) else s)
            && (outcome == Going <==> fault == NoFault && isNew)
            && (outcome == Crashed <==> fault.Crash? && isNew)
            && (outcome == Going || outcome == Crashed || outcome == Errored)
  {
  }

  predicate Ordered(sorted: seq<Migration>) {
    forall i, j :: 0 <= i < j < |sorted| ==> sorted[i].version <= sorted[j].version
  }

  function InsertByVersion(sorted: seq<Migration>, m: Migration): seq<Migration> {
    if sorted == [] || sorted[|sorted| - 1].version <= m.version then sorted + [m]
    else InsertByVersion(sorted[..|sorted| - 1], m) + [sorted[|sorted| - 1]]
  }

  /** The list rearranged by version; it stands for the rearrangement that sort.Slice makes. */
  function SortByVersion(all: seq<Migration>): seq<Migration> {
    if all == [] then [] else InsertByVersion(SortByVersion(all[..|all| - 1]), all[|all| - 1])
  }

  predicate AtMost(ms: seq<Migration>, version: int) {
    forall i :: 0 <= i < |ms| ==> ms[i].version <= version
  }

  lemma {:induction false} InsertKeepsAtMost(sorted: seq<Migration>, m: Migration, version: int)
    requires AtMost(sorted, version) && m.version <= version
    ensures AtMost(InsertByVersion(sorted, m), version)
  {
    if sorted != [] && sorted[|sorted| - 1].version > m.version {
      InsertKeepsAtMost(sorted[..|sorted| - 1], m, version);
    }
  }

  lemma {:induction false} OrderedSnoc(front: seq<Migration>, last: Migration)
    ensures Ordered(front + [last]) <==> Ordered(front) && AtMost(front, last.version)
  {
    var all := front + [last];
    if Ordered(all) {
      assert forall i :: 0 <= i < |front| ==> all[i] == front[i];
      assert all[|front|] == last;
    }
  }

  lemma {:induction false} InsertKeepsOrder(sorted: seq<Migration>, m: Migration)
    requires Ordered(sorted)
    ensures Ordered(InsertByVersion(sorted, m))
  {
    if sorted == [] || sorted[|sorted| - 1].version <= m.version {
      OrderedSnoc(sorted, m);
    } else {
      var front, last := sorted[..|sorted| - 1], sorted[|sorted| - 1];
      assert sorted == front + [last];
      OrderedSnoc(front, last);
      hide Ordered;
      InsertKeepsOrder(front, m);
      InsertKeepsAtMost(front, m, last.version);
      OrderedSnoc(InsertByVersion(front, m), last);
    }
  }

  lemma {:induction false} InsertKeepsMembers(sorted: seq<Migration>, m: Migration)
    ensures multiset(InsertByVersion(sorted, m)) == multiset(sorted) + multiset{m}
  {
    if sorted != [] && sorted[|sorted| - 1].version > m.version {
      InsertKeepsMembers(sorted[..|sorted| - 1], m);
      assert sorted == sorted[..|sorted| - 1] + [sorted[|sorted| - 1]];
    }
  }

  /** Sorting keeps the migrations, with multiplicity, and orders them. */
  lemma {:induction false} SortKeepsMigrations(all: seq<Migration>)
    ensures Ordered(SortByVersion(all)) && multiset(SortByVersion(all)) == multiset(all)
  {
    if all != [] {
      var front := all[..|all| - 1];
      SortKeepsMigrations(front);
      hide Ordered;
      InsertKeepsOrder(SortByVersion(front), all[|all| - 1]);
      InsertKeepsMembers(SortByVersion(front), all[|all| - 1]);
      assert all == front + [all[|all| - 1]];
    }
  }

  predicate Increasing(effects: seq<Migration>) {
    forall i, j :: 0 <= i < j < |effects| ==> effects[i].version < effects[j].version
  }

  /** The changes committed since `start`. */
  function Added(start: Store, s: Store): seq<Migration>
    requires |start.effects| <= |s.effects|
  {
    s.effects[|start.effects|..]
  }

  /** The run has only added changes: those of migrations among the first k, not done before, in rising order. */
  predicate RisingRun(start: Store, s: Store, sorted: seq<Migration>, k: nat)
    requires k <= |sorted|
  {
    && start.effects <= s.effects && start.recorded <= s.recorded
    && Increasing(Added(start, s))
    && forall i :: 0 <= i < |Added(start, s)| ==>
         Added(start, s)[i] in sorted[..k] && !IsRecorded(start.recorded, Added(start, s)[i].version)
  }

  lemma {:induction false} OneMoreRises(start: Store, s: Store, s': Store, sorted: seq<Migration>, k: nat)
    requires k < |sorted| && Ordered(sorted) && !SeenBefore(sorted, k) && RisingRun(start, s, sorted, k)
    requires !IsRecorded(start.recorded, sorted[k].version)
    requires s'.effects == s.effects + [sorted[k]] && s'.recorded == s.recorded + [RowOf(sorted[k])]
    ensures RisingRun(start, s', sorted, k + 1)
  {
    hide IsRecorded;
    assert Added(start, s') == Added(start, s) + [sorted[k]];
    assert sorted[..k + 1] == sorted[..k] + [sorted[k]];
    forall i | 0 <= i < |Added(start, s)|
      ensures Added(start, s)[i].version < sorted[k].version
    {
      assert Added(start, s)[i] in sorted[..k];
      var j :| 0 <= j < k && sorted[j] == Added(start, s)[i];
    }
    hide SeenBefore, Ordered;
  }

  lemma {:induction false} NoMoreRises(start: Store, s: Store, sorted: seq<Migration>, k: nat)
    requires k < |sorted| && RisingRun(start, s, sorted, k)
    ensures RisingRun(start, s, sorted, k + 1)
  {
    hide IsRecorded, Increasing;
    assert sorted[..k + 1] == sorted[..k] + [sorted[k]];
  }

  lemma {:induction false} LoopKeepsSound(start: Store, sorted: seq<Migration>, faults: seq<Fault>, k: nat)
    requires Sound(start) && Ordered(sorted) && k <= |sorted|
    ensures Sound(Loop(start, sorted, faults, k).0) && RisingRun(start, Loop(start, sorted, faults, k).0, sorted, k)
  {
    if k > 0 {
      LoopKeepsSound(start, sorted, faults, k - 1);
      var (s, outcome) := Loop(start, sorted, faults, k - 1);
      NoMoreRises(start, s, sorted, k - 1);
      ApplyKeepsSound(s, sorted[k - 1], FaultAt(faults, k - 1));
      hide Apply, SeenBefore, IsRecorded, RisingRun, Sound, Ordered;
      if outcome == Going && !SeenBefore(sorted, k - 1) && !IsRecorded(start.recorded, sorted[k - 1].version) {
        var s' := Apply(s, sorted[k - 1], FaultAt(faults, k - 1)).0;
        if s' != s {
          OneMoreRises(start, s, s', sorted, k - 1);
        }
      }
    }
  }

  /** The starts of a program whose list of migrations may differ from release to release. */
  datatype StartUp = StartUp(sorted: seq<Migration>, faults: seq<Fault>)

  function Starts(starts: seq<StartUp>): Store {
    if starts == [] then EMPTY
    else
      var last := starts[|starts| - 1];
      Start(Starts(starts[..|starts| - 1]), last.sorted, last.faults).0
  }

  predicate AllOrdered(starts: seq<StartUp>) {
    forall k :: 0 <= k < |starts| ==> Ordered(starts[k].sorted)
  }

  /** Over any starts, with any failures and any lists, every version commits at most once and the recorded
      versions are exactly the committed changes. */
  lemma {:induction false} AtMostOnceOverAnyStarts(starts: seq<StartUp>)
    requires AllOrdered(starts)
    ensures Sound(Starts(starts))
  {
    hide Sound, Loop;
    if starts == [] {
      assert Sound(EMPTY) by { EmptyIsSound(); }
    } else {
      var last := starts[|starts| - 1];
      AtMostOnceOverAnyStarts(starts[..|starts| - 1]);
      LoopKeepsSound(Starts(starts[..|starts| - 1]), last.sorted, last.faults, |last.sorted|);
    }
  }

  lemma {:induction false} EmptyIsSound()
    ensures Sound(EMPTY)
  {
  }

  // ---------- prefixes ----------

  /** The file holds exactly the first n migrations of the list, in order. */
  predicate IsPrefix(s: Store, full: seq<Migration>, n: nat) {
    n <= |full| && s.effects == full[..n] && RowsAreEffects(s)
  }

  lemma {:induction false} PrefixRecords(s: Store, full: seq<Migration>, n: nat, k: nat)
    requires Increasing(full) && IsPrefix(s, full, n) && k < |full|
    ensures IsRecorded(s.recorded, full[k].version) <==> k < n
  {
    if k < n {
      assert s.recorded[k] == RowOf(full[k]);
    }
  }

  /** The file holds the first n migrations of the list or more of it. */
  ghost predicate HoldsFrom(s: Store, full: seq<Migration>, n: nat) {
    exists n' :: n <= n' && IsPrefix(s, full, n')
  }

  lemma {:induction false} HoldsFromFewer(s: Store, full: seq<Migration>, n: nat, less: nat)
    requires HoldsFrom(s, full, n) && less <= n
    ensures HoldsFrom(s, full, less)
  {
  }

  lemma {:induction false} PrefixGrows(s: Store, full: seq<Migration>, n: nat, fault: Fault)
    requires Increasing(full) && IsPrefix(s, full, n) && n < |full|
    ensures var (s', outcome) := Apply(s, full[n], fault);
            if outcome == Going then IsPrefix(s', full, n + 1) else HoldsFrom(s', full, n)
    ensures fault == NoFault ==> Apply(s, full[n], fault).1 == Going
  {
    PrefixRecords(s, full, n, n);
    hide IsRecorded;
    assert full[..n + 1] == full[..n] + [full[n]];
    var s' := Apply(s, full[n], fault).0;
    assert IsPrefix(s', full, n) || IsPrefix(s', full, n + 1);
  }

  function Max(a: nat, b: nat): nat {
    if a < b then b else a
  }

  /** Where the run stops, the file holds a longer or equal prefix; while it goes on, all of the list so far. */
  ghost predicate PrefixReached(result: (Store, Outcome), full: seq<Migration>, n: nat, k: nat) {
    if result.1 == Going then IsPrefix(result.0, full, Max(n, k)) else HoldsFrom(result.0, full, n)
  }

  lemma {:induction false} LoopKeepsPrefix(start: Store, full: seq<Migration>, m: nat, faults: seq<Fault>, n: nat,
                                           k: nat)
    requires Increasing(full) && m <= |full| && IsPrefix(start, full, n) && k <= m
    ensures PrefixReached(Loop(start, full[..m], faults, k), full, n, k)
    ensures faults == [] ==> Loop(start, full[..m], faults, k).1 == Going
  {
    hide IsRecorded, SeenBefore, IsPrefix, Increasing, HoldsFrom, Apply, RowsAreEffects;
    if k > 0 {
      LoopKeepsPrefix(start, full, m, faults, n, k - 1);
      var (s, outcome) := Loop(start, full[..m], faults, k - 1);
      NotSeenBefore(full, m, k - 1);
      PrefixRecords(start, full, n, k - 1);
      assert full[..m][k - 1] == full[k - 1];
      hide Loop;
      LoopUnfolds(start, full[..m], faults, k);
      if outcome == Going && n < k {
        GrowsFrom(s, full, n, k - 1, FaultAt(faults, k - 1));
      }
    }
  }

  lemma {:induction false} LoopUnfolds(start: Store, sorted: seq<Migration>, faults: seq<Fault>, k: nat)
    requires 0 < k <= |sorted|
    ensures var (s, outcome) := Loop(start, sorted, faults, k - 1);
            Loop(start, sorted, faults, k) ==
            if outcome != Going then (s, outcome)
            else if SeenBefore(sorted, k - 1) then (s, DuplicateVersion)
            else if IsRecorded(start.recorded, sorted[k - 1].version) then (s, Going)
            else Apply(s, sorted[k - 1], FaultAt(faults, k - 1))
  {
    hide Apply, SeenBefore, IsRecorded;
  }

  lemma {:induction false} GrowsFrom(s: Store, full: seq<Migration>, n: nat, k: nat, fault: Fault)
    requires Increasing(full) && IsPrefix(s, full, k) && n <= k < |full|
    ensures PrefixReached(Apply(s, full[k], fault), full, n, k + 1)
    ensures fault == NoFault ==> Apply(s, full[k], fault).1 == Going
  {
    hide IsPrefix, HoldsFrom, Apply, Increasing;
    PrefixGrows(s, full, k, fault);
    var (s', outcome) := Apply(s, full[k], fault);
    if outcome != Going {
      HoldsFromFewer(s', full, k, n);
    }
  }

  lemma {:induction false} NotSeenBefore(full: seq<Migration>, m: nat, k: nat)
    requires Increasing(full) && k < m <= |full|
    ensures !SeenBefore(full[..m], k)
  {
  }

  /** A release knows a first part of the list of migrations that is ever published. */
  datatype Release = Release(known: nat, faults: seq<Fault>)

  function Releases(full: seq<Migration>, releases: seq<Release>): Store
    requires forall k :: 0 <= k < |releases| ==> releases[k].known <= |full|
  {
    if releases == [] then EMPTY
    else
      var last := releases[|releases| - 1];
      Start(Releases(full, releases[..|releases| - 1]), full[..last.known], last.faults).0
  }

  /** Upgrades, downgrades, crashes and errors in any order leave exactly a first part of the list applied,
      in the list's order. */
  lemma {:induction false} AlwaysAPrefix(full: seq<Migration>, releases: seq<Release>)
    requires Increasing(full) && forall k :: 0 <= k < |releases| ==> releases[k].known <= |full|
    ensures HoldsFrom(Releases(full, releases), full, 0)
  {
    hide Loop, Increasing;
    if releases == [] {
      assert IsPrefix(EMPTY, full, 0);
    } else {
      var last := releases[|releases| - 1];
      AlwaysAPrefix(full, releases[..|releases| - 1]);
      var s := Releases(full, releases[..|releases| - 1]);
      hide IsPrefix;
      var n: nat :| IsPrefix(s, full, n);
      LoopKeepsPrefix(s, full, last.known, last.faults, n, last.known);
    }
  }

  /** A start without faults applies everything that is missing, and the next start changes nothing. */
  lemma {:induction false} FaultlessStartCompletes(full: seq<Migration>, m: nat, s: Store, n: nat, faults: seq<Fault>)
    requires Increasing(full) && m <= |full| && IsPrefix(s, full, n)
    ensures var (s', outcome) := Start(s, full[..m], []);
            && outcome == Going && IsPrefix(s', full, Max(n, m))
            && Start(s', full[..m], faults) == (s', Going)
  {
    LoopKeepsPrefix(s, full, m, [], n, m);
    var s' := Start(s, full[..m], []).0;
    assert IsPrefix(s', full, Max(n, m));
    forall k | 0 <= k < m
      ensures IsRecorded(s'.recorded, full[..m][k].version) && !SeenBefore(full[..m], k)
    {
      NotSeenBefore(full, m, k);
      PrefixRecords(s', full, Max(n, m), k);
    }
    hide IsRecorded, SeenBefore, Apply, IsPrefix;
    NothingLeftToDo(s', full[..m], faults, m);
  }

  // ---------- any list ----------

  predicate AllRecorded(s: Store, sorted: seq<Migration>, k: nat)
    requires k <= |sorted|
  {
    forall i :: 0 <= i < k ==> IsRecorded(s.recorded, sorted[i].version)
  }

  predicate NoDuplicates(sorted: seq<Migration>, k: nat)
    requires k <= |sorted|
  {
    forall i :: 0 <= i < k ==> !SeenBefore(sorted, i)
  }

  lemma {:induction false} NothingLeftToDo(s: Store, sorted: seq<Migration>, faults: seq<Fault>, k: nat)
    requires k <= |sorted| && AllRecorded(s, sorted, k) && NoDuplicates(sorted, k)
    ensures Loop(s, sorted, faults, k) == (s, Going)
  {
    hide IsRecorded, SeenBefore, Apply;
    if k > 0 {
      NothingLeftToDo(s, sorted, faults, k - 1);
    }
  }

  lemma {:induction false} RecordedStays(s: Store, s': Store, version: int)
    requires s.recorded <= s'.recorded && IsRecorded(s.recorded, version)
    ensures IsRecorded(s'.recorded, version)
  {
    var i :| 0 <= i < |s.recorded| && s.recorded[i].0 == version;
    assert s'.recorded[i].0 == version;
  }

  lemma {:induction false} ApplyRecords(s: Store, m: Migration, fault: Fault)
    ensures var (s', outcome) := Apply(s, m, fault);
            s.recorded <= s'.recorded && (outcome == Going ==> IsRecorded(s'.recorded, m.version))
  {
    var (s', outcome) := Apply(s, m, fault);
    if outcome == Going {
      assert s'.recorded[|s.recorded|].0 == m.version;
    }
  }

  lemma {:induction false} LoopGoesOnlyWhenDone(start: Store, sorted: seq<Migration>, faults: seq<Fault>, k: nat)
    requires k <= |sorted|
    ensures var (s, outcome) := Loop(start, sorted, faults, k);
            && start.recorded <= s.recorded
            && (outcome == Going ==> AllRecorded(s, sorted, k) && NoDuplicates(sorted, k))
  {
    if k > 0 {
      LoopGoesOnlyWhenDone(start, sorted, faults, k - 1);
      var (s, before) := Loop(start, sorted, faults, k - 1);
      ApplyRecords(s, sorted[k - 1], FaultAt(faults, k - 1));
      hide IsRecorded, SeenBefore, Apply;
      var (s', outcome) := Loop(start, sorted, faults, k);
      if outcome == Going {
        forall i | 0 <= i < k
          ensures IsRecorded(s'.recorded, sorted[i].version)
        {
          if i < k - 1 {
            RecordedStays(s, s', sorted[i].version);
          } else if IsRecorded(start.recorded, sorted[i].version) {
            RecordedStays(start, s', sorted[i].version);
          }
        }
      }
    }
  }

  /** A program that came up has every version recorded, its list had no duplicate, and starting it again
      changes nothing, whatever would fail. */
  lemma {:induction false} UpMeansDone(s: Store, sorted: seq<Migration>, faults: seq<Fault>, again: seq<Fault>)
    requires Start(s, sorted, faults).1 == Going
    ensures var s' := Start(s, sorted, faults).0;
            && AllRecorded(s', sorted, |sorted|) && NoDuplicates(sorted, |sorted|)
            && Start(s', sorted, again) == (s', Going)
  {
    LoopGoesOnlyWhenDone(s, sorted, faults, |sorted|);
    hide Loop, SeenBefore, IsRecorded;
    NothingLeftToDo(Start(s, sorted, faults).0, sorted, again, |sorted|);
  }

  lemma {:induction false} RecordedInRun(start: Store, s: Store, sorted: seq<Migration>, k: nat)
    requires k < |sorted| && RowsAreEffects(s) && RowsAreEffects(start) && RisingRun(start, s, sorted, k)
    ensures IsRecorded(s.recorded, sorted[k].version) ==>
              SeenBefore(sorted, k) || IsRecorded(start.recorded, sorted[k].version)
  {
    if IsRecorded(s.recorded, sorted[k].version) {
      var i :| 0 <= i < |s.recorded| && s.recorded[i].0 == sorted[k].version;
      if i < |start.recorded| {
        assert start.recorded[i].0 == sorted[k].version;
      } else {
        var a := Added(start, s)[i - |start.effects|];
        assert a == s.effects[i] && a in sorted[..k];
        var j :| 0 <= j < k && sorted[j] == a;
      }
    }
  }

  lemma {:induction false} FaultlessLoop(start: Store, sorted: seq<Migration>, k: nat)
    requires Sound(start) && Ordered(sorted) && k <= |sorted|
    ensures Loop(start, sorted, [], k).1 == (if NoDuplicates(sorted, k) then Going else DuplicateVersion)
  {
    if k > 0 {
      FaultlessLoop(start, sorted, k - 1);
      var (s, outcome) := Loop(start, sorted, [], k - 1);
      LoopKeepsSound(start, sorted, [], k - 1);
      hide Sound, RisingRun, Ordered, IsRecorded, SeenBefore;
      if outcome == Going && !SeenBefore(sorted, k - 1) && !IsRecorded(start.recorded, sorted[k - 1].version) {
        SoundRows(start);
        SoundRows(s);
        hide RowsAreEffects;
        RecordedInRun(start, s, sorted, k - 1);
      }
    }
  }

  lemma {:induction false} SoundRows(s: Store)
    requires Sound(s)
    ensures RowsAreEffects(s)
  {
  }

  // ---------- the methods ----------

  class Database {
    var effects: seq<Migration>
    var recorded: seq<(int, string)>

    function Contents(): Store
      reads this
    {
      Store(effects, recorded)
    }

    /** applySchemaMigration: the transaction is a private copy until it is committed. */
    method ApplySchemaMigration(m: Migration, fault: Fault) returns (outcome: Outcome)
      modifies this
      ensures (Contents(), outcome) == Apply(old(Contents()), m, fault)
    {
      if fault.BeginFails? {
        return Errored;
      }
      var txEffects, txRecorded := effects, recorded;
      if fault.RunFails? {
        return Errored;
      }
      txEffects := txEffects + [m];
      for i := 0 to |txRecorded|
        invariant forall j :: 0 <= j < i ==> txRecorded[j].0 != m.version
      {
        if txRecorded[i].0 == m.version {
          return Errored;
        }
      }
      if fault.RecordFails? {
        return Errored;
      }
      txRecorded := txRecorded + [(m.version, m.name)];
      if fault == NoFault || fault.reachedFile {
        effects, recorded := txEffects, txRecorded;
      }
      outcome := if fault == NoFault then Going else if fault.Crash? then Crashed else Errored;
    }

    /** appliedSchemaMigrations */
    method AppliedSchemaMigrations() returns (applied: set<int>)
      ensures forall v :: v in applied <==> IsRecorded(recorded, v)
    {
      applied := {};
      for i := 0 to |recorded|
        invariant forall v :: v in applied <==> IsRecorded(recorded[..i], v)
      {
        forall v
          ensures IsRecorded(recorded[..i + 1], v) <==> IsRecorded(recorded[..i], v) || v == recorded[i].0
        {
          RecordedSnoc(recorded[..i], recorded[i], v);
          assert recorded[..i + 1] == recorded[..i] + [recorded[i]];
        }
        hide IsRecorded;
        applied := applied + {recorded[i].0};
      }
      assert recorded[..|recorded|] == recorded;
    }

    /** runVersionedMigrations. It works on a sorted copy of the list. */
    method RunVersionedMigrations(all: seq<Migration>, faults: seq<Fault>) returns (outcome: Outcome)
      modifies this
      ensures (Contents(), outcome) == Start(old(Contents()), SortByVersion(all), faults)
    {
      outcome := RunSortedMigrations(SortByVersion(all), faults);
    }

    /** Its loop over the sorted list. */
    method RunSortedMigrations(sorted: seq<Migration>, faults: seq<Fault>) returns (outcome: Outcome)
      modifies this
      ensures (Contents(), outcome) == Start(old(Contents()), sorted, faults)
    {
      hide Apply, IsRecorded;
      ghost var start := Contents();
      var applied := AppliedSchemaMigrations();
      var seen: set<int> := {};
      for k := 0 to |sorted|
        invariant Loop(start, sorted, faults, k) == (Contents(), Going)
        invariant seen == set j | 0 <= j < k :: sorted[j].version
      {
        var m := sorted[k];
        if m.version in seen {
          StoppedStays(start, sorted, faults, k + 1);
          return DuplicateVersion;
        }
        seen := seen + {m.version};
        if m.version in applied {
          continue;
        }
        outcome := ApplySchemaMigration(m, FaultAt(faults, k));
        if outcome != Going {
          StoppedStays(start, sorted, faults, k + 1);
          return;
        }
      }
      outcome := Going;
    }
  }

  lemma {:induction false} RecordedSnoc(recorded: seq<(int, string)>, row: (int, string), v: int)
    ensures IsRecorded(recorded + [row], v) <==> IsRecorded(recorded, v) || v == row.0
  {
    var all := recorded + [row];
    if IsRecorded(recorded, v) {
      var i :| 0 <= i < |recorded| && recorded[i].0 == v;
      assert all[i].0 == v;
    }
    assert all[|recorded|].0 == row.0;
  }

  lemma {:induction false} StoppedStays(start: Store, sorted: seq<Migration>, faults: seq<Fault>, k: nat)
    requires k <= |sorted| && Loop(start, sorted, faults, k).1 != Going
    ensures Start(start, sorted, faults) == Loop(start, sorted, faults, k)
    decreases |sorted| - k
  {
    if k < |sorted| {
      StoppedStays(start, sorted, faults, k + 1);
    }
  }
}
