/** internal/api/ratelimit.go: the sliding-window limiter. It keeps pruned logs of admitted requests and
    forgets idle ones; the model compares it with a limiter that keeps every admission for ever.
    Times are integers in nanoseconds. */
module RateLimit {
  import opened Text

  const SECOND := 1_000_000_000

  datatype Key = Key(rule: string, identity: string)

  type Log = seq<int>

  type Buckets = map<Key, Log>

  /** The answer of Check. */
  datatype Decision = Decision(allowed: bool, retryAfter: int, rule: string, limit: int)

  // ---------- rules ----------

  /** ruleForPath */
  function RuleForPath(path: string): string {
    if path == "/api/login" then "login"
    else if HasPrefix(path, "/api/search") then "search"
    else if HasPrefix(path, "/api/download") then "download"
    else if HasPrefix(path, "/api/") then "api"
    else "default"
  }

  function RuleLimit(rules: map<string, int>, rule: string): int {
    if rule in rules then rules[rule] else 0
  }

  /** The limit of a rule: its own, or the default rule's, or 600. Zero means "not configured". */
  function LimitFor(rules: map<string, int>, rule: string): (limit: int)
    ensures limit != 0
  {
    if RuleLimit(rules, rule) != 0 then RuleLimit(rules, rule)
    else if RuleLimit(rules, "default") != 0 then RuleLimit(rules, "default")
    else 600
  }

  /** Each rule and the paths it stands for. */
  lemma {:induction false} RuleMeaning(path: string)
    ensures var rule := RuleForPath(path);
            && (rule == "login" <==> path == "/api/login")
            && (rule == "search" <==> "/api/search" <= path)
            && (rule == "download" <==> "/api/download" <= path)
            && (rule == "api" <==> "/api/" <= path && path != "/api/login"
                                   && !("/api/search" <= path) && !("/api/download" <= path))
            && (rule == "default" <==> !("/api/" <= path))
  {
    assert "login"[0] == 'l' && "search"[0] == 's' && "download"[1] == 'o' && "api"[0] == 'a' && "default"[1] == 'e';
    assert "/api/login"[5] == 'l' && "/api/search"[5] == 's' && "/api/download"[5] == 'd';
    assert "/api/login"[..5] == "/api/" == "/api/search"[..5] == "/api/download"[..5];
    if "/api/search" <= path {
      assert path[..5] == "/api/" && path[5] == 's';
    }
    if "/api/download" <= path {
      assert path[..5] == "/api/" && path[5] == 'd';
    }
  }

  predicate Configured(rules: map<string, int>, rule: string) {
    rule in rules && rules[rule] != 0
  }

  /** A configured rule has its own limit, any other that of the default rule, or 600 if that is not configured. */
  lemma {:induction false} LimitMeaning(rules: map<string, int>, rule: string)
    ensures var limit := LimitFor(rules, rule);
            && (Configured(rules, rule) ==> limit == rules[rule])
            && (!Configured(rules, rule) && Configured(rules, "default") ==> limit == rules["default"])
            && (!Configured(rules, rule) && !Configured(rules, "default") ==> limit == 600)
  {
  }

  // ---------- the limiter on values ----------

  function Get(b: Buckets, key: Key): Log {
    if key in b then b[key] else []
  }

  /** Drops the leading entries older than `cutoff`. */
  function Prune(log: Log, cutoff: int): Log {
    if log != [] && log[0] < cutoff then Prune(log[1..], cutoff) else log
  }

  /** What remains is a suffix: everything before it is older than the cutoff, and its first entry is not. */
  lemma {:induction false} PruneIsSuffix(log: Log, cutoff: int)
    ensures var kept := Prune(log, cutoff);
            && |kept| <= |log| && kept == log[|log| - |kept|..]
            && (forall i :: 0 <= i < |log| - |kept| ==> log[i] < cutoff)
            && (kept != [] ==> kept[0] >= cutoff)
  {
    if log != [] && log[0] < cutoff {
      PruneIsSuffix(log[1..], cutoff);
      assert forall i :: 1 <= i < |log| ==> log[i] == log[1..][i - 1];
    }
  }

  /** Go's integer division truncates towards zero. */
  function Quotient(a: int, b: int): int
    requires b > 0
  {
    if a >= 0 then a / b else -((-a) / b)
  }

  function RetryAfter(kept: Log, windowSec: int, now: int): int {
    if kept == [] then windowSec
    else
      var seconds := Quotient(windowSec * SECOND - (now - kept[0]), SECOND);
      if seconds < 1 then 1 else seconds
  }

  /** Check on one bucket: the pruned log, with the request appended if it is admitted. */
  function CheckLog(log: Log, window: int, limit: int, now: int): (Log, bool) {
    var kept := Prune(log, now - window);
    if |kept| >= limit then (kept, false) else (kept + [now], true)
  }

  /** cleanup: forgets the buckets whose newest entry has left the window. */
  function Cleanup(b: Buckets, window: int, now: int): Buckets {
    map key | key in b && !Stale(b[key], window, now) :: b[key]
  }

  predicate Stale(log: Log, window: int, now: int) {
    log == [] || log[|log| - 1] < now - window
  }

  datatype Event = CheckAt(key: Key, limit: int, now: int) | CleanupAt(now: int)

  function Apply(b: Buckets, window: int, e: Event): (Buckets, bool) {
    match e
    case CleanupAt(now) => (Cleanup(b, window, now), true)
    case CheckAt(key, limit, now) =>
      var (log, allowed) := CheckLog(Get(b, key), window, limit, now);
      (b[key := log], allowed)
  }

  /** The answers to the first `k` events, with the buckets they leave. */
  function Run(window: int, events: seq<Event>, k: nat): (r: (Buckets, seq<bool>))
    requires k <= |events|
    ensures |r.1| == k
  {
    if k == 0 then (map[], [])
    else
      var (b, answers) := Run(window, events, k - 1);
      var (b', answer) := Apply(b, window, events[k - 1]);
      (b', answers + [answer])
  }

  // ---------- the full history ----------

  /** How many entries are at or after `cutoff`. */
  function CountFrom(log: Log, cutoff: int): (n: nat)
    ensures n <= |log|
  {
    if log == [] then 0 else CountFrom(log[..|log| - 1], cutoff) + if log[|log| - 1] >= cutoff then 1 else 0
  }

  /** The reference limiter: it keeps every admission, and admits while fewer than `limit` of them lie in the window. */
  function ApplyIdeal(h: Buckets, window: int, e: Event): (Buckets, bool) {
    match e
    case CleanupAt(_) => (h, true)
    case CheckAt(key, limit, now) =>
      var log := Get(h, key);
      if CountFrom(log, now - window) < limit then (h[key := log + [now]], true) else (h, false)
  }

  function RunIdeal(window: int, events: seq<Event>, k: nat): (r: (Buckets, seq<bool>))
    requires k <= |events|
    ensures |r.1| == k
  {
    if k == 0 then (map[], [])
    else
      var (h, answers) := RunIdeal(window, events, k - 1);
      var (h', answer) := ApplyIdeal(h, window, events[k - 1]);
      (h', answers + [answer])
  }

  predicate Sorted(log: Log) {
    forall i, j :: 0 <= i < j < |log| ==> log[i] <= log[j]
  }

  /** `kept` is `full` without some leading entries, all of which had left the window by time `last`. */
  predicate Abbreviates(kept: Log, full: Log, window: int, last: int) {
    && Sorted(full)
    && (forall i :: 0 <= i < |full| ==> full[i] <= last)
    && |kept| <= |full| && kept == full[|full| - |kept|..]
    && (forall i :: 0 <= i < |full| - |kept| ==> full[i] < last - window)
  }

  ghost predicate Refines(b: Buckets, h: Buckets, window: int, last: int) {
    forall key :: Abbreviates(Get(b, key), Get(h, key), window, last)
  }

  /** In a sorted log the entries at or after the cutoff are those that pruning keeps. */
  lemma {:induction false} CountIsPruned(log: Log, cutoff: int)
    requires Sorted(log)
    ensures CountFrom(log, cutoff) == |Prune(log, cutoff)|
  {
    PruneIsSuffix(log, cutoff);
    var kept := Prune(log, cutoff);
    var dropped := |log| - |kept|;
    assert forall i :: dropped <= i < |log| ==> log[i] == kept[i - dropped];
    assert forall i :: dropped <= i < |log| ==> log[i] >= cutoff;
    CountBySplit(log, cutoff, dropped, |log|);
    assert log[..|log|] == log;
  }

  lemma {:induction false} CountBySplit(log: Log, cutoff: int, split: nat, k: nat)
    requires split <= |log| && k <= |log|
    requires forall i :: 0 <= i < split ==> log[i] < cutoff
    requires forall i :: split <= i < |log| ==> log[i] >= cutoff
    ensures CountFrom(log[..k], cutoff) == if k <= split then 0 else k - split
  {
    if k > 0 {
      CountBySplit(log, cutoff, split, k - 1);
      assert log[..k][..k - 1] == log[..k - 1];
    }
  }

  /** Pruning a log and pruning what is left of it give the same, once the left-out entries are old. */
  lemma {:induction false} PruneAbbreviated(kept: Log, full: Log, window: int, last: int, now: int)
    requires Abbreviates(kept, full, window, last) && last <= now
    ensures Prune(kept, now - window) == Prune(full, now - window)
  {
    hide Prune, Sorted;
    var n := |full| - |kept|;
    assert forall i :: 0 <= i < n ==> full[i] < now - window;
    PruneDropsOld(full, now - window, n);
  }

  lemma {:induction false} PruneDropsOld(log: Log, cutoff: int, n: nat)
    requires n <= |log| && forall i :: 0 <= i < n ==> log[i] < cutoff
    ensures Prune(log[n..], cutoff) == Prune(log, cutoff)
  {
    if n == 0 {
      assert log[0..] == log;
    } else {
      PruneDropsOld(log, cutoff, n - 1);
      assert log[n - 1..][1..] == log[n..];
    }
  }

  /** One event: the limiter answers as the full history does, and goes on abbreviating it. */
  lemma {:induction false} ApplyRefines(b: Buckets, h: Buckets, window: int, last: int, e: Event)
    requires Refines(b, h, window, last) && last <= e.now
    ensures Apply(b, window, e).1 == ApplyIdeal(h, window, e).1
    ensures Refines(Apply(b, window, e).0, ApplyIdeal(h, window, e).0, window, e.now)
  {
    hide CheckLog, CountFrom, Cleanup, Abbreviates;
    if e.CheckAt? {
      assert Abbreviates(Get(b, e.key), Get(h, e.key), window, last);
      CheckAbbreviates(Get(b, e.key), Get(h, e.key), window, last, e.limit, e.now);
    }
    var b', h' := Apply(b, window, e).0, ApplyIdeal(h, window, e).0;
    forall key
      ensures Abbreviates(Get(b', key), Get(h', key), window, e.now)
    {
      assert Abbreviates(Get(b, key), Get(h, key), window, last);
      if e.CleanupAt? {
        CleanupAbbreviates(b, key, Get(h, key), window, last, e.now);
      } else if e.key != key {
        LaterAbbreviates(Get(b, key), Get(h, key), window, last, e.now);
      }
    }
  }

  lemma {:induction false} LaterAbbreviates(kept: Log, full: Log, window: int, last: int, now: int)
    requires Abbreviates(kept, full, window, last) && last <= now
    ensures Abbreviates(kept, full, window, now)
  {
  }

  lemma {:induction false} CheckAbbreviates(kept: Log, full: Log, window: int, last: int, limit: int, now: int)
    requires Abbreviates(kept, full, window, last) && last <= now
    ensures var (log, allowed) := CheckLog(kept, window, limit, now);
            && (allowed <==> CountFrom(full, now - window) < limit)
            && Abbreviates(log, if allowed then full + [now] else full, window, now)
  {
    hide Prune, CountFrom, Abbreviates;
    PruneAbbreviated(kept, full, window, last, now);
    PrunedAbbreviates(kept, full, window, last, now);
    AppendAbbreviates(Prune(full, now - window), full, window, now);
  }

  lemma {:induction false} PrunedAbbreviates(kept: Log, full: Log, window: int, last: int, now: int)
    requires Abbreviates(kept, full, window, last) && last <= now
    ensures Abbreviates(Prune(full, now - window), full, window, now)
    ensures CountFrom(full, now - window) == |Prune(full, now - window)|
  {
    hide Prune, CountFrom, Sorted;
    CountIsPruned(full, now - window);
    PruneIsSuffix(full, now - window);
  }

  lemma {:induction false} AppendAbbreviates(kept: Log, full: Log, window: int, now: int)
    requires Abbreviates(kept, full, window, now)
    ensures Abbreviates(kept + [now], full + [now], window, now)
  {
    var n := |full| - |kept|;
    assert (full + [now])[n..] == full[n..] + [now];
  }

  lemma {:induction false} CleanupAbbreviates(b: Buckets, key: Key, full: Log, window: int, last: int, now: int)
    requires Abbreviates(Get(b, key), full, window, last) && last <= now
    ensures Abbreviates(Get(Cleanup(b, window, now), key), full, window, now)
  {
    var kept := Get(b, key);
    if key in b && Stale(b[key], window, now) && kept != [] {
      assert kept[|kept| - 1] == full[|full| - 1];
      assert forall i :: 0 <= i < |full| ==> full[i] <= full[|full| - 1];
    }
  }

  predicate Monotone(events: seq<Event>) {
    forall i, j :: 0 <= i < j < |events| ==> events[i].now <= events[j].now
  }

  lemma {:induction false} RunStepRefines(window: int, events: seq<Event>, k: nat)
    requires Monotone(events) && k <= |events|
    ensures Run(window, events, k).1 == RunIdeal(window, events, k).1
    ensures k > 0 ==> Refines(Run(window, events, k).0, RunIdeal(window, events, k).0, window, events[k - 1].now)
    ensures k == 0 ==> Run(window, events, k).0 == RunIdeal(window, events, k).0 == map[]
  {
    hide Apply, ApplyIdeal, Refines;
    if k == 1 {
      assert Refines(map[], map[], window, events[0].now) by { NothingRefinesNothing(window, events[0].now); }
    }
    if k > 0 {
      RunStepRefines(window, events, k - 1);
      var last := if k == 1 then events[0].now else events[k - 2].now;
      ApplyRefines(Run(window, events, k - 1).0, RunIdeal(window, events, k - 1).0, window, last, events[k - 1]);
    }
  }

  lemma {:induction false} NothingRefinesNothing(window: int, last: int)
    ensures Refines(map[], map[], window, last)
  {
  }

  /** Whatever the clean-ups in between, every request is answered as the full history would answer it. */
  lemma {:induction false} LimiterRefinesHistory(window: int, events: seq<Event>)
    requires Monotone(events)
    ensures Run(window, events, |events|).1 == RunIdeal(window, events, |events|).1
  {
    RunStepRefines(window, events, |events|);
  }

  // ---------- how many requests a window can hold ----------

  /** How many entries lie in the closed interval from `a` to `b`. */
  function CountBetween(log: Log, a: int, b: int): nat {
    if log == [] then 0
    else CountBetween(log[..|log| - 1], a, b) + if a <= log[|log| - 1] <= b then 1 else 0
  }

  /** Each entry found fewer than `limit` earlier ones in the window before it. */
  ghost predicate EachAdmitted(log: Log, window: int, limit: int) {
    forall k :: 0 <= k < |log| ==> CountFrom(log[..k], log[k] - window) < limit
  }

  /** No closed interval as long as the window holds more than `limit` entries. */
  ghost predicate WindowsBounded(log: Log, window: int, limit: int) {
    forall a :: InWindow(log, a, window) <= limit
  }

  /** How many entries lie in the closed window that starts at `a`. */
  function InWindow(log: Log, a: int, window: int): nat {
    CountBetween(log, a, a + window)
  }

  lemma {:induction false} BetweenIsFrom(log: Log, a: int, b: int, cutoff: int)
    ensures cutoff <= a ==> CountBetween(log, a, b) <= CountFrom(log, cutoff)
    ensures a == cutoff && (forall i :: 0 <= i < |log| ==> log[i] <= b)
            ==> CountBetween(log, a, b) == CountFrom(log, cutoff)
  {
    if log != [] {
      BetweenIsFrom(log[..|log| - 1], a, b, cutoff);
    }
  }

  lemma {:induction false} BetweenGrows(log: Log, a: int, b: int, k: nat)
    requires k <= |log|
    ensures CountBetween(log[..k], a, b) <= CountBetween(log, a, b)
    decreases |log| - k
  {
    if k == |log| {
      assert log[..k] == log;
    } else {
      BetweenGrows(log, a, b, k + 1);
      assert log[..k + 1][..k] == log[..k];
    }
  }

  lemma {:induction false} AdmittedFillsWindow(log: Log, window: int, limit: int, a: int)
    requires limit >= 0 && EachAdmitted(log, window, limit)
    ensures InWindow(log, a, window) <= limit
  {
    if log != [] {
      hide CountFrom, EachAdmitted;
      var front := log[..|log| - 1];
      FrontIsAdmitted(log, window, limit);
      AdmittedFillsWindow(front, window, limit, a);
      BetweenIsFrom(front, a, a + window, log[|log| - 1] - window);
    }
  }

  lemma {:induction false} FrontIsAdmitted(log: Log, window: int, limit: int)
    requires log != [] && EachAdmitted(log, window, limit)
    ensures EachAdmitted(log[..|log| - 1], window, limit)
    ensures CountFrom(log[..|log| - 1], log[|log| - 1] - window) < limit
  {
    hide CountFrom;
    var front := log[..|log| - 1];
    assert forall k :: 0 <= k < |front| ==> front[..k] == log[..k];
  }

  /** Admitting while fewer than `limit` lie in the trailing window is exactly what keeps every closed window
      at `limit`: it never lets one more through, and no log within that bound has an entry it would refuse. */
  lemma {:induction false} AdmissionIsWindowBound(log: Log, window: int, limit: int)
    requires Sorted(log) && limit >= 0 && window >= 0
    ensures EachAdmitted(log, window, limit) <==> WindowsBounded(log, window, limit)
  {
    hide CountFrom, InWindow, Sorted;
    if EachAdmitted(log, window, limit) {
      forall a
        ensures InWindow(log, a, window) <= limit
      {
        AdmittedFillsWindow(log, window, limit, a);
      }
    }
    if WindowsBounded(log, window, limit) {
      forall k | 0 <= k < |log|
        ensures CountFrom(log[..k], log[k] - window) < limit
      {
        BoundedIsAdmitted(log, window, limit, k);
      }
    }
  }

  lemma {:induction false} BoundedIsAdmitted(log: Log, window: int, limit: int, k: nat)
    requires Sorted(log) && window >= 0 && WindowsBounded(log, window, limit) && k < |log|
    ensures CountFrom(log[..k], log[k] - window) < limit
  {
    var x := log[k];
    var upTo := log[..k + 1];
    assert upTo[..k] == log[..k] && upTo[k] == x;
    assert InWindow(log, x - window, window) <= limit;
    assert forall i :: 0 <= i < k ==> log[i] <= x;
    hide WindowsBounded, Sorted;
    BetweenGrows(log, x - window, x, k + 1);
    BetweenIsFrom(log[..k], x - window, x, x - window);
    assert CountBetween(upTo, x - window, x) == CountBetween(log[..k], x - window, x) + 1;
  }

  /** The requests under `key` in a run, all with the same limit. */
  predicate LimitIs(events: seq<Event>, key: Key, limit: int) {
    forall i :: 0 <= i < |events| && events[i].CheckAt? && events[i].key == key ==> events[i].limit == limit
  }

  /** Every admission the reference makes under a key is one the limit allows. */
  lemma {:induction false} IdealAdmits(window: int, events: seq<Event>, k: nat, key: Key, limit: int)
    requires k <= |events| && LimitIs(events, key, limit)
    ensures EachAdmitted(Get(RunIdeal(window, events, k).0, key), window, limit)
  {
    hide CountFrom;
    if k > 0 {
      IdealAdmits(window, events, k - 1, key, limit);
      var h, e := RunIdeal(window, events, k - 1).0, events[k - 1];
      var before, after := Get(h, key), Get(RunIdeal(window, events, k).0, key);
      hide RunIdeal;
      if after != before {
        assert after == before + [e.now] && CountFrom(before, e.now - window) < limit;
        forall i | 0 <= i < |after|
          ensures CountFrom(after[..i], after[i] - window) < limit
        {
          assert after[..i] == before[..i];
          assert i == |before| ==> before[..i] == before;
        }
      }
    }
  }

  /** In any run, no closed interval as long as the window holds more than `limit` admissions of one rule
      and identity. */
  lemma {:induction false} NoWindowOverflows(window: int, events: seq<Event>, key: Key, limit: int, a: int)
    requires window >= 0 && limit >= 0 && Monotone(events) && LimitIs(events, key, limit)
    ensures InWindow(Admissions(window, events, |events|, key), a, window) <= limit
  {
    RunIsAdmissions(window, events, |events|, key);
    IdealAdmits(window, events, |events|, key, limit);
    AdmittedFillsWindow(Get(RunIdeal(window, events, |events|).0, key), window, limit, a);
  }

  /** The times of the requests under `key` that the pruned limiter let through. */
  function Admissions(window: int, events: seq<Event>, k: nat, key: Key): Log
    requires k <= |events|
  {
    if k == 0 then []
    else
      var e := events[k - 1];
      if e.CheckAt? && e.key == key && Run(window, events, k).1[k - 1] then
        Admissions(window, events, k - 1, key) + [e.now]
      else Admissions(window, events, k - 1, key)
  }

  lemma {:induction false} RunIsAdmissions(window: int, events: seq<Event>, k: nat, key: Key)
    requires Monotone(events) && k <= |events|
    ensures Admissions(window, events, k, key) == Get(RunIdeal(window, events, k).0, key)
  {
    hide Run, CountFrom;
    if k > 0 {
      RunIsAdmissions(window, events, k - 1, key);
      RunStepRefines(window, events, k);
      var before := RunIdeal(window, events, k - 1).0;
      assert RunIdeal(window, events, k).1[k - 1] == ApplyIdeal(before, window, events[k - 1]).1;
    }
  }

  // ---------- the retry hint ----------

  /** Buckets never hold more than the limit. */
  lemma {:induction false} CheckKeepsWithinLimit(log: Log, window: int, limit: int, now: int)
    requires limit > 0
    ensures |CheckLog(log, window, limit, now).0| <= if |log| <= limit then limit else |log|
  {
    PruneIsSuffix(log, now - window);
  }

  /** A refused bucket as Check leaves it: full, and all of it within the window. */
  predicate Refused(kept: Log, windowSec: int, limit: int, now: int) {
    && |kept| == limit && limit > 0 && Sorted(kept)
    && now - windowSec * SECOND <= kept[0] && kept[limit - 1] <= now
  }

  lemma {:induction false} RefusalLeavesRefused(log: Log, windowSec: int, limit: int, now: int)
    requires limit > 0 && |log| <= limit && Sorted(log) && (forall i :: 0 <= i < |log| ==> log[i] <= now)
    requires !CheckLog(log, windowSec * SECOND, limit, now).1
    ensures Refused(CheckLog(log, windowSec * SECOND, limit, now).0, windowSec, limit, now)
  {
    PruneIsSuffix(log, now - windowSec * SECOND);
    hide Prune;
  }

  lemma {:induction false} BucketsStayWithinLimit(window: int, events: seq<Event>, k: nat, key: Key, limit: int)
    requires k <= |events| && LimitIs(events, key, limit) && limit > 0
    ensures |Get(Run(window, events, k).0, key)| <= limit
  {
    hide Prune, Stale;
    if k > 0 {
      BucketsStayWithinLimit(window, events, k - 1, key, limit);
      var e := events[k - 1];
      if e.CheckAt? {
        CheckKeepsWithinLimit(Get(Run(window, events, k - 1).0, e.key), window, limit, e.now);
      }
    }
  }

  /** In any run, a refusal leaves its bucket refused: what is said below holds for every refusal. */
  lemma {:induction false} RefusalInRun(windowSec: int, events: seq<Event>, k: nat, key: Key, limit: int)
    requires Monotone(events) && k < |events| && LimitIs(events, key, limit) && limit > 0
    requires events[k] == CheckAt(key, limit, events[k].now) && !Run(windowSec * SECOND, events, k + 1).1[k]
    ensures Refused(Get(Run(windowSec * SECOND, events, k + 1).0, key), windowSec, limit, events[k].now)
  {
    var window, now := windowSec * SECOND, events[k].now;
    BucketsStayWithinLimit(window, events, k, key, limit);
    RunStepRefines(window, events, k);
    var b := Run(window, events, k).0;
    var log := Get(b, key);
    hide Prune, Refines;
    assert Sorted(log) && forall i :: 0 <= i < |log| ==> log[i] <= now by {
      if k > 0 {
        RefinedIsSorted(b, RunIdeal(window, events, k).0, window, events[k - 1].now, key);
      }
    }
    assert Run(window, events, k + 1) == (Apply(b, window, events[k]).0,
        Run(window, events, k).1 + [Apply(b, window, events[k]).1]);
    hide Run, Sorted;
    RefusalLeavesRefused(log, windowSec, limit, now);
  }

  lemma {:induction false} RefinedIsSorted(b: Buckets, h: Buckets, window: int, last: int, key: Key)
    requires Refines(b, h, window, last)
    ensures Sorted(Get(b, key)) && forall i :: 0 <= i < |Get(b, key)| ==> Get(b, key)[i] <= last
  {
    assert Abbreviates(Get(b, key), Get(h, key), window, last);
  }

  /** The hint in terms of the time the oldest request still has to spend in the window. */
  lemma {:induction false} HintArithmetic(kept: Log, windowSec: int, limit: int, now: int)
    requires Refused(kept, windowSec, limit, now)
    ensures var remaining, hint := kept[0] + windowSec * SECOND - now, RetryAfter(kept, windowSec, now);
            && 0 <= remaining <= windowSec * SECOND
            && 1 <= hint && remaining < (hint + 1) * SECOND
            && (if remaining < SECOND then hint == 1 else hint * SECOND <= remaining)
  {
    assert kept[0] <= kept[limit - 1];
    hide Sorted;
    var remaining := kept[0] + windowSec * SECOND - now;
    assert remaining == windowSec * SECOND - (now - kept[0]);
    assert (remaining / SECOND) * SECOND <= remaining < (remaining / SECOND + 1) * SECOND;
  }

  /** Under a limit that is not positive nothing is ever admitted, and every refusal hints at the whole window. */
  lemma {:induction false} NothingWithoutLimit(windowSec: int, events: seq<Event>, k: nat, key: Key)
    requires k < |events| && events[k].CheckAt? && events[k].key == key
    requires forall i :: 0 <= i <= k && events[i].CheckAt? && events[i].key == key ==> events[i].limit <= 0
    ensures var (b, answers) := Run(windowSec * SECOND, events, k + 1);
            !answers[k] && RetryAfter(Get(b, key), windowSec, events[k].now) == windowSec
  {
    StaysEmpty(windowSec * SECOND, events, k, key);
  }

  lemma {:induction false} StaysEmpty(window: int, events: seq<Event>, k: nat, key: Key)
    requires k <= |events|
    requires forall i :: 0 <= i < k && events[i].CheckAt? && events[i].key == key ==> events[i].limit <= 0
    ensures Get(Run(window, events, k).0, key) == []
  {
    if k > 0 {
      StaysEmpty(window, events, k - 1, key);
    }
  }

  /** The hint lies between one second and the window. */
  lemma {:induction false} RetryHintIsBounded(kept: Log, windowSec: int, limit: int, now: int)
    requires Refused(kept, windowSec, limit, now)
    ensures 1 <= RetryAfter(kept, windowSec, now) <= if windowSec > 1 then windowSec else 1
  {
    HintArithmetic(kept, windowSec, limit, now);
    hide RetryAfter, Sorted;
  }

  lemma {:induction false} PruneShortens(log: Log, cutoff: int)
    requires log != []
    ensures Prune(log, cutoff) == log <==> log[0] >= cutoff
    ensures log[0] < cutoff ==> |Prune(log, cutoff)| < |log|
  {
    PruneIsSuffix(log[1..], cutoff);
  }

  /** From one second after the hinted time on the request is admitted, whatever was cleaned up meanwhile. */
  lemma {:induction false} RetrySucceedsOneSecondLater(kept: Log, windowSec: int, limit: int, now: int, t: int,
                                                       b: Buckets, key: Key, cleaned: int)
    requires Refused(kept, windowSec, limit, now) && key in b && b[key] == kept
    requires t >= now + (RetryAfter(kept, windowSec, now) + 1) * SECOND
    ensures CheckLog(kept, windowSec * SECOND, limit, t).1
    ensures CheckLog(Get(Cleanup(b, windowSec * SECOND, cleaned), key), windowSec * SECOND, limit, t).1
  {
    HintArithmetic(kept, windowSec, limit, now);
    PruneShortens(kept, t - windowSec * SECOND);
    hide Prune, RetryAfter, Sorted, Stale;
    assert kept[0] < t - windowSec * SECOND;
  }

  /** No request under `key` from event `from` up to event `to`. */
  predicate Quiet(events: seq<Event>, from: nat, to: nat, key: Key)
    requires to <= |events|
  {
    forall i :: from <= i < to ==> events[i].CleanupAt? || events[i].key != key
  }

  /** Meanwhile the bucket stays as it is, or is forgotten. */
  lemma {:induction false} QuietBucket(window: int, events: seq<Event>, from: nat, to: nat, key: Key)
    requires from <= to <= |events| && Quiet(events, from, to, key)
    ensures Get(Run(window, events, to).0, key) == Get(Run(window, events, from).0, key)
              || Get(Run(window, events, to).0, key) == []
  {
    hide CheckLog, Stale;
    if from < to {
      QuietBucket(window, events, from, to - 1, key);
    }
  }

  /** In any run: after a refusal, whatever other identities and rules ask for and however often is cleaned up
      meanwhile, the next request under the key is admitted if it comes one second after the hinted time. */
  lemma {:induction false} RetryInRunSucceeds(windowSec: int, events: seq<Event>, k: nat, m: nat, key: Key, limit: int)
    requires Monotone(events) && k < m < |events| && LimitIs(events, key, limit) && limit > 0
    requires events[k] == CheckAt(key, limit, events[k].now) && !Run(windowSec * SECOND, events, k + 1).1[k]
    requires Quiet(events, k + 1, m, key) && events[m] == CheckAt(key, limit, events[m].now)
    requires var kept := Get(Run(windowSec * SECOND, events, k + 1).0, key);
             events[m].now >= events[k].now + (RetryAfter(kept, windowSec, events[k].now) + 1) * SECOND
    ensures Run(windowSec * SECOND, events, m + 1).1[m]
  {
    var window, t := windowSec * SECOND, events[m].now;
    var kept := Get(Run(window, events, k + 1).0, key);
    RefusalInRun(windowSec, events, k, key, limit);
    QuietBucket(window, events, k + 1, m, key);
    RefusedIsAdmittedLater(kept, windowSec, limit, events[k].now, t);
    assert Run(window, events, m + 1).1[m] == Apply(Run(window, events, m).0, window, events[m]).1;
    hide Run, RetryAfter, Sorted, Monotone, Quiet;
  }

  lemma {:induction false} RefusedIsAdmittedLater(kept: Log, windowSec: int, limit: int, now: int, t: int)
    requires Refused(kept, windowSec, limit, now) && t >= now + (RetryAfter(kept, windowSec, now) + 1) * SECOND
    ensures CheckLog(kept, windowSec * SECOND, limit, t).1 && CheckLog([], windowSec * SECOND, limit, t).1
  {
    var key := Key("", "");
    RetrySucceedsOneSecondLater(kept, windowSec, limit, now, t, map[key := kept], key, t);
  }

  /** At the hinted time itself the request is admitted exactly if less than one second of waiting remained:
      the division rounds down, so a client that obeys a longer hint to the second is refused once more. */
  lemma {:induction false} HintIsEarly(kept: Log, windowSec: int, limit: int, now: int)
    requires Refused(kept, windowSec, limit, now)
    ensures var t := now + RetryAfter(kept, windowSec, now) * SECOND;
            CheckLog(kept, windowSec * SECOND, limit, t).1 <==> kept[0] + windowSec * SECOND - now < SECOND
  {
    HintArithmetic(kept, windowSec, limit, now);
    PruneShortens(kept, now + RetryAfter(kept, windowSec, now) * SECOND - windowSec * SECOND);
    hide Prune, RetryAfter, Sorted;
  }

  // ---------- the limiter itself ----------

  class RateLimiter {
    const windowSec: int
    const rules: map<string, int>
    var buckets: Buckets

    constructor (windowSec: int, rules: map<string, int>)
      ensures this.windowSec == windowSec && this.rules == rules && buckets == map[]
    {
      this.windowSec := windowSec;
      this.rules := rules;
      buckets := map[];
    }

    /** The background clean-up walks the buckets in no particular order. */
    method CleanUp(now: int)
      modifies this
      ensures buckets == Apply(old(buckets), windowSec * SECOND, CleanupAt(now)).0
    {
      ghost var window := windowSec * SECOND;
      var cutoff := now - windowSec * SECOND;
      var keys := buckets.Keys;
      while keys != {}
        invariant keys <= buckets.Keys
        invariant buckets == map key | key in old(buckets) && (key in keys || !Stale(old(buckets)[key], window, now))
                                 :: old(buckets)[key]
        decreases keys
      {
        var key :| key in keys;
        keys := keys - {key};
        var timestamps := buckets[key];
        if timestamps == [] || timestamps[|timestamps| - 1] < cutoff {
          buckets := buckets - {key};
        }
      }
    }

    /** Check. The rule and identity select the bucket; `now` was read before the lock was taken. */
    method Check(identity: string, path: string, now: int) returns (d: Decision)
      modifies this
      ensures d.rule == RuleForPath(path) && d.limit == LimitFor(rules, d.rule)
      ensures var key, window := Key(d.rule, identity), windowSec * 1_000_000_000;
              && (buckets, d.allowed) == Apply(old(buckets), window, CheckAt(key, d.limit, now))
              && key in buckets && d.retryAfter == if d.allowed then 0 else RetryAfter(buckets[key], windowSec, now)
    {
      var rule := RuleForPath(path);
      var limit := RuleLimit(rules, rule);
      if limit == 0 {
        limit := RuleLimit(rules, "default");
      }
      if limit == 0 {
        limit := 600;
      }
      assert limit == LimitFor(rules, rule);
      hide RuleForPath, LimitFor, RuleLimit, CheckLog, RetryAfter;
      var allowed, retryAfter := Admit(Key(rule, identity), limit, now);
      d := Decision(allowed, retryAfter, rule, limit);
    }

    /** The part of Check that runs under the lock. */
    method Admit(key: Key, limit: int, now: int) returns (allowed: bool, retryAfter: int)
      modifies this
      ensures (buckets, allowed) == Apply(old(buckets), windowSec * SECOND, CheckAt(key, limit, now))
      ensures key in buckets && retryAfter == if allowed then 0 else RetryAfter(buckets[key], windowSec, now)
    {
      hide RetryAfter;
      var timestamps := if key in buckets then buckets[key] else [];
      timestamps := PruneBucket(timestamps, now - windowSec * SECOND);
      hide Prune;
      allowed := |timestamps| < limit;
      if allowed {
        retryAfter := 0;
        timestamps := timestamps + [now];
      } else {
        retryAfter := RetryAfter(timestamps, windowSec, now);
      }
      buckets := buckets[key := timestamps];
    }
  }

  method PruneBucket(timestamps: Log, cutoff: int) returns (kept: Log)
    ensures kept == Prune(timestamps, cutoff)
  {
    hide Prune;
    var i := 0;
    assert timestamps[0..] == timestamps;
    while i < |timestamps| && timestamps[i] < cutoff
      invariant i <= |timestamps| && Prune(timestamps[i..], cutoff) == Prune(timestamps, cutoff)
    {
      PruneTurn(timestamps, cutoff, i);
      i := i + 1;
    }
    PruneTurn(timestamps, cutoff, i);
    kept := timestamps[i..];
  }

  /** One turn of the pruning loop, by index. */
  lemma {:induction false} PruneTurn(log: Log, cutoff: int, i: nat)
    requires i <= |log|
    ensures Prune(log[i..], cutoff) == if i < |log| && log[i] < cutoff then Prune(log[i + 1..], cutoff) else log[i..]
  {
    if i < |log| {
      assert log[i..][1..] == log[i + 1..];
    }
  }
}
