/** Which jobs run: the jobs resumed from storage, and the configuration applied over them. */
module Configurator {
  import opened Words
  import opened Keys
  import opened WriteOrder

  datatype JobDescriptor = JobDescriptor(address: Address, contract: uint8, startBlock: uint64)

  /** A start of the indexer: which job, from which block. */
  datatype Launch = Launch(job: JobDescriptor, block: uint64)

  function Jobs(launches: seq<Launch>): (r: seq<JobDescriptor>)
    ensures |r| == |launches|
  {
    seq(|launches|, k requires 0 <= k < |launches| => launches[k].job)
  }

  class JobStorage {
    /** The stored block of each job. */
    var stored: map<JobDescriptor, uint64>

    /** All stored jobs, each once; their order does not matter. */
    method SelectAllJobs() returns (jobs: seq<Launch>)
      ensures Distinct(Jobs(jobs))
      ensures forall d :: d in Jobs(jobs) <==> d in stored
      ensures forall k :: 0 <= k < |jobs| ==> jobs[k].job in stored && jobs[k].block == stored[jobs[k].job]
    {
      jobs := [];
      var left := stored.Keys;
      while left != {}
        invariant left <= stored.Keys && Distinct(Jobs(jobs))
        invariant forall d :: d in Jobs(jobs) <==> d in stored && d !in left
        invariant forall k :: 0 <= k < |jobs| ==> jobs[k].job in stored && jobs[k].block == stored[jobs[k].job]
      {
        var d :| d in left;
        left := left - {d};
        assert Jobs(jobs + [Launch(d, stored[d])]) == Jobs(jobs) + [d];
        jobs := jobs + [Launch(d, stored[d])];
      }
    }
  }

  /** What a configurator runs, what is stored, and every start so far. */
  datatype Status = Status(jobs: map<JobDescriptor, uint64>, stored: map<JobDescriptor, uint64>, launches: seq<Launch>)

  class Configurator {
    const storage: JobStorage

    /** The running jobs, with the block each was started from. */
    var jobs: map<JobDescriptor, uint64>

    /** Every start so far, in order. */
    var launches: seq<Launch>

    ghost function View(): Status
      reads this, storage
    {
      Status(jobs, storage.stored, launches)
    }

    constructor (storage: JobStorage)
      ensures this.storage == storage && jobs == map[] && launches == []
    {
      this.storage, jobs, launches := storage, map[], [];
    }

    /** Starts a job unless no handler can be produced for it. */
    method StartJob(job: JobDescriptor, block: uint64, producible: JobDescriptor -> bool) returns (ok: bool)
      modifies this
      ensures ok == producible(job)
      ensures jobs == if ok then old(jobs)[job := block] else old(jobs)
      ensures launches == if ok then old(launches) + [Launch(job, block)] else old(launches)
    {
      ok := producible(job);
      if ok {
        jobs := jobs[job := block];
        launches := launches + [Launch(job, block)];
      }
    }

    /** Resumes the stored jobs that are configured. */
    method InitFromStorage(activeSet: seq<JobDescriptor>, producible: JobDescriptor -> bool) returns (ok: bool)
      requires jobs == map[] && launches == []
      modifies this
      ensures ok <==> forall d :: d in storage.stored && d in activeSet ==> producible(d)
      ensures Once(launches, jobs)
      ensures ok ==> jobs == map d | d in storage.stored && d in activeSet :: storage.stored[d]
    {
      var all := storage.SelectAllJobs();
      ghost var names := Jobs(all);
      for k := 0 to |all|
        invariant Once(launches, jobs)
        invariant forall d :: d in jobs <==> d in activeSet && d in names[..k]
        invariant forall d :: d in jobs ==> d in storage.stored && jobs[d] == storage.stored[d] && producible(d)
      {
        var job := all[k];
        assert names[k] == job.job && names[..k + 1] == names[..k] + [job.job];
        if job.job in activeSet {
          ghost var before, was := launches, jobs;
          ok := StartJob(job.job, job.block, producible);
          if !ok {
            return;
          }
          OnceSnoc(before, was, job);
        }
      }
      assert names[..|all|] == names;
      ok := true;
    }

    /** Starts what is configured and not running, then stops what runs and is not configured. */
    method ReloadConfig(config: seq<JobDescriptor>, producible: JobDescriptor -> bool,
                        stopsCleanly: JobDescriptor -> bool) returns (ok: bool)
      modifies this, storage
      ensures Reloaded(old(View()), View(), config, ok)
      ensures ok ==> forall d :: d in jobs <==> d in config
      ensures ok ==> forall d :: d in config ==> jobs[d] == if d in old(jobs) then old(jobs)[d] else d.startBlock
      ensures storage.stored ==
                if ok then old(storage.stored) - (old(jobs).Keys - (set d | d in config)) else old(storage.stored)
      ensures ok <==> (forall d :: d in config && d !in old(jobs) ==> producible(d))
                      && (forall d :: d in old(jobs) && d !in config ==> stopsCleanly(d))
    {
      ok := StartMissing(config, producible);
      if ok {
        ghost var started := View();
        ok := StopOthers(config, stopsCleanly);
        StoppedIsReloaded(old(View()), started, View(), config, ok);
        assert ok ==> old(jobs).Keys - jobs.Keys == old(jobs).Keys - (set d | d in config);
      }
    }

    /** Starts every configured job that does not run, once, from its start block. */
    method StartMissing(config: seq<JobDescriptor>, producible: JobDescriptor -> bool) returns (ok: bool)
      modifies this
      ensures Started(old(View()), View(), config)
      ensures ok <==> forall d :: d in config && d !in old(jobs) ==> producible(d)
      ensures ok ==> forall d :: d in config ==> d in jobs
    {
      StartedNone(View(), config);
      for k := 0 to |config|
        invariant Started(old(View()), View(), config)
        invariant forall d :: d in config[..k] ==> d in jobs
        invariant forall d :: d in jobs && d !in old(jobs) ==> producible(d)
      {
        assert config[..k + 1] == config[..k] + [config[k]];
        if config[k] !in jobs {
          ghost var before := View();
          ok := StartJob(config[k], config[k].startBlock, producible);
          if !ok {
            return;
          }
          StartedSnoc(old(View()), before, View(), config, config[k]);
        }
      }
      assert config[..|config|] == config;
      ok := true;
    }

    /** Stops every running job that is not configured; their progress is deleted together at the end. */
    method StopOthers(config: seq<JobDescriptor>, stopsCleanly: JobDescriptor -> bool) returns (ok: bool)
      modifies this`jobs, storage
      ensures ok <==> forall d :: d in old(jobs) && d !in config ==> stopsCleanly(d)
      ensures forall d :: d in jobs ==> d in old(jobs) && jobs[d] == old(jobs)[d]
      ensures forall d :: d in old(jobs) && d in config ==> d in jobs
      ensures ok ==> forall d :: d in jobs ==> d in config
      ensures storage.stored ==
                if ok then old(storage.stored) - (old(jobs).Keys - (set d | d in config)) else old(storage.stored)
    {
      ghost var first := jobs;
      var deleted: set<JobDescriptor> := {};
      var left := jobs.Keys;
      while left != {}
        invariant left <= first.Keys && deleted <= first.Keys && jobs == first - deleted
        invariant forall d :: d in deleted <==> d in first && d !in left && d !in config
        invariant forall d :: d in deleted ==> stopsCleanly(d)
        invariant storage.stored == old(storage.stored)
      {
        var d :| d in left;
        left := left - {d};
        if d !in config {
          jobs := jobs - {d};
          deleted := deleted + {d};
          if !stopsCleanly(d) {
            return false;
          }
        }
      }
      assert deleted == first.Keys - (set d | d in config);
      storage.stored := storage.stored - deleted;
      ok := true;
    }
  }

  // ---------- one reload ----------

  /** The starts that were made between two states. */
  ghost function News(s: Status, s': Status): seq<Launch>
    requires s.launches <= s'.launches
  {
    s'.launches[|s.launches|..]
  }

  /** New starts are of configured jobs that did not run, each once, and from its start block. */
  ghost predicate Fresh(s: Status, news: seq<Launch>, config: seq<JobDescriptor>) {
    && Distinct(Jobs(news))
    && forall k :: 0 <= k < |news| ==>
         news[k].job in config && news[k].job !in s.jobs && news[k].block == news[k].job.startBlock
  }

  /** Jobs were started, and nothing else happened. */
  ghost predicate Started(s: Status, s': Status, config: seq<JobDescriptor>) {
    && s.launches <= s'.launches && Fresh(s, News(s, s'), config) && s'.stored == s.stored
    && (forall d :: d in s'.jobs <==> d in s.jobs || d in Jobs(News(s, s')))
    && (forall d :: d in s'.jobs ==> s'.jobs[d] == if d in s.jobs then s.jobs[d] else d.startBlock)
  }

  /**
   A reload, successful or not. What is configured and ran goes on untouched; whatever else runs
   afterwards is newly started or, after a failure, not yet stopped. If it succeeds, exactly the
   configured jobs run and only the progress of the stopped ones is deleted; if it fails, none is.
   */
  ghost predicate Reloaded(s: Status, s': Status, config: seq<JobDescriptor>, ok: bool) {
    && s.launches <= s'.launches && Fresh(s, News(s, s'), config)
    && (forall d :: d in s.jobs && d in config ==> d in s'.jobs)
    && (forall d :: d in Jobs(News(s, s')) ==> d in s'.jobs)
    && (forall d :: d in s'.jobs ==> d in s.jobs || d in Jobs(News(s, s')))
    && (forall d :: d in s'.jobs ==> s'.jobs[d] == if d in s.jobs then s.jobs[d] else d.startBlock)
    && (ok ==> forall d :: d in s'.jobs <==> d in config)
    && s'.stored == if ok then s.stored - (s.jobs.Keys - s'.jobs.Keys) else s.stored
  }

  lemma {:induction false} StartedNone(s: Status, config: seq<JobDescriptor>)
    ensures Started(s, s, config)
  {
    assert News(s, s) == [];
  }

  lemma {:induction false} StartedSnoc(s: Status, before: Status, s': Status, config: seq<JobDescriptor>,
                                       d: JobDescriptor)
    requires Started(s, before, config) && d in config && d !in before.jobs
    requires s' == Status(before.jobs[d := d.startBlock], before.stored, before.launches + [Launch(d, d.startBlock)])
    ensures Started(s, s', config)
  {
    var news := News(s, before);
    assert News(s, s') == news + [Launch(d, d.startBlock)];
    assert Jobs(News(s, s')) == Jobs(news) + [d];
  }

  lemma {:induction false} NewsAreConfigured(s: Status, news: seq<Launch>, config: seq<JobDescriptor>, d: JobDescriptor)
    requires Fresh(s, news, config) && d in Jobs(news)
    ensures d in config && d !in s.jobs
  {
    var k :| 0 <= k < |news| && Jobs(news)[k] == d;
    assert news[k].job == d;
  }

  /** Starting what is missing and then stopping the others is a reload. */
  lemma {:induction false} StoppedIsReloaded(s: Status, started: Status, s': Status, config: seq<JobDescriptor>,
                                             ok: bool)
    requires Started(s, started, config) && s'.launches == started.launches
    requires forall d :: d in config ==> d in started.jobs
    requires forall d :: d in s'.jobs ==> d in started.jobs && s'.jobs[d] == started.jobs[d]
    requires forall d :: d in started.jobs && d in config ==> d in s'.jobs
    requires ok ==> forall d :: d in s'.jobs ==> d in config
    requires s'.stored == if ok then s.stored - (started.jobs.Keys - (set d | d in config)) else s.stored
    ensures Reloaded(s, s', config, ok)
  {
    forall d | d in Jobs(News(s, s')) ensures d in config && d !in s.jobs {
      NewsAreConfigured(s, News(s, s'), config, d);
    }
    if ok {
      assert started.jobs.Keys - (set d | d in config) == s.jobs.Keys - s'.jobs.Keys;
    }
  }

  // ---------- the life of a configurator ----------

  /** Between reloads the running jobs store their progress. */
  datatype Action = Report(progress: map<JobDescriptor, uint64>) | Reload(config: seq<JobDescriptor>, ok: bool)

  ghost predicate Acts(s: Status, a: Action, s': Status) {
    match a
    case Report(progress) => progress.Keys <= s.jobs.Keys && s' == s.(stored := s.stored + progress)
    case Reload(config, ok) => Reloaded(s, s', config, ok)
  }

  ghost predicate ActsAt(tr: seq<Status>, acts: seq<Action>, k: nat)
    requires k < |acts| < |tr|
  {
    Acts(tr[k], acts[k], tr[k + 1])
  }

  /** Any sequence of reports and reloads, from any state. */
  ghost predicate Life(tr: seq<Status>, acts: seq<Action>) {
    |tr| == |acts| + 1 && forall k: nat :: k < |acts| ==> ActsAt(tr, acts, k)
  }

  /** How often `d` was started. */
  function Starts(launches: seq<Launch>, d: JobDescriptor): nat {
    if launches == [] then 0
    else Starts(launches[..|launches| - 1], d) + if launches[|launches| - 1].job == d then 1 else 0
  }

  lemma {:induction false} StartsConcat(a: seq<Launch>, b: seq<Launch>, d: JobDescriptor)
    ensures Starts(a + b, d) == Starts(a, d) + Starts(b, d)
  {
    if b == [] {
      assert a + b == a;
    } else {
      StartsConcat(a, b[..|b| - 1], d);
      assert (a + b)[..|a + b| - 1] == a + b[..|b| - 1];
    }
  }

  lemma {:induction false} StartsOfDistinct(launches: seq<Launch>, d: JobDescriptor)
    requires Distinct(Jobs(launches))
    ensures Starts(launches, d) == if d in Jobs(launches) then 1 else 0
  {
    if launches != [] {
      var front, last := launches[..|launches| - 1], launches[|launches| - 1];
      assert Jobs(launches) == Jobs(front) + [last.job];
      forall j, k | 0 <= j < k < |Jobs(front)| ensures Jobs(front)[j] != Jobs(front)[k] {
        assert Jobs(launches)[j] != Jobs(launches)[k];
      }
      forall k | 0 <= k < |Jobs(front)| ensures Jobs(front)[k] != last.job {
        assert Jobs(launches)[k] != Jobs(launches)[|front|];
      }
      StartsOfDistinct(front, d);
    }
  }

  /** How often, between positions `i` and `k`, `d` began to run. */
  ghost function Entries(tr: seq<Status>, d: JobDescriptor, i: nat, k: nat): nat
    requires i <= k < |tr|
  {
    if i == k then 0
    else Entries(tr, d, i, k - 1) + if d !in tr[k - 1].jobs && d in tr[k].jobs then 1 else 0
  }

  lemma {:induction false} ReloadStarts(s: Status, s': Status, config: seq<JobDescriptor>, ok: bool, d: JobDescriptor)
    requires Reloaded(s, s', config, ok)
    ensures Starts(s'.launches, d) == Starts(s.launches, d) + if d !in s.jobs && d in s'.jobs then 1 else 0
  {
    var news := News(s, s');
    assert s'.launches == s.launches + news;
    StartsConcat(s.launches, news, d);
    StartsOfDistinct(news, d);
    if d in Jobs(news) {
      NewsAreConfigured(s, news, config, d);
    }
  }

  /** Over a whole life, a job is started exactly as often as it begins to run: never twice at a time. */
  lemma {:induction false} StartsAreEntries(tr: seq<Status>, acts: seq<Action>, d: JobDescriptor, i: nat, k: nat)
    requires Life(tr, acts) && i <= k < |tr|
    ensures Starts(tr[k].launches, d) == Starts(tr[i].launches, d) + Entries(tr, d, i, k)
    decreases k
  {
    if i < k {
      StartsAreEntries(tr, acts, d, i, k - 1);
      assert ActsAt(tr, acts, k - 1);
      match acts[k - 1] {
        case Report(_) =>
        case Reload(config, ok) => ReloadStarts(tr[k - 1], tr[k], config, ok, d);
      }
    }
  }

  ghost predicate Configured(a: Action, d: JobDescriptor) {
    a.Reload? ==> d in a.config
  }

  /** A job that is in every configuration goes on untouched: the same run, never started again. */
  lemma {:induction false} CommonJobsStay(tr: seq<Status>, acts: seq<Action>, d: JobDescriptor, i: nat, k: nat)
    requires Life(tr, acts) && i <= k < |tr| && d in tr[i].jobs
    requires forall j: nat :: i <= j < k ==> Configured(acts[j], d)
    ensures d in tr[k].jobs && tr[k].jobs[d] == tr[i].jobs[d]
    ensures Starts(tr[k].launches, d) == Starts(tr[i].launches, d)
    decreases k
  {
    if i < k {
      CommonJobsStay(tr, acts, d, i, k - 1);
      assert ActsAt(tr, acts, k - 1) && Configured(acts[k - 1], d);
      match acts[k - 1] {
        case Report(_) =>
        case Reload(config, ok) => ReloadStarts(tr[k - 1], tr[k], config, ok, d);
      }
    }
  }

  /** A successful reload that stops `d`. */
  ghost predicate Stops(s: Status, a: Action, d: JobDescriptor) {
    a.Reload? && a.ok && d in s.jobs && d !in a.config
  }

  /** The progress of a job is lost only by stopping it ... */
  lemma {:induction false} LostWasStopped(tr: seq<Status>, acts: seq<Action>, d: JobDescriptor, i: nat, k: nat)
    returns (j: nat)
    requires Life(tr, acts) && i <= k < |tr| && d in tr[i].stored && d !in tr[k].stored
    ensures i <= j < k && Stops(tr[j], acts[j], d)
    decreases k
  {
    assert ActsAt(tr, acts, k - 1);
    if d in tr[k - 1].stored {
      j := k - 1;
    } else {
      j := LostWasStopped(tr, acts, d, i, k - 1);
    }
  }

  /** ... and a stopped job has no progress, until it runs again. */
  lemma {:induction false} StoppedIsLost(tr: seq<Status>, acts: seq<Action>, d: JobDescriptor, j: nat, k: nat)
    requires Life(tr, acts) && j < k < |tr| && Stops(tr[j], acts[j], d)
    requires forall h: nat :: j < h < k ==> d !in tr[h].jobs
    ensures d !in tr[k].stored
    decreases k
  {
    assert ActsAt(tr, acts, k - 1);
    if j < k - 1 {
      StoppedIsLost(tr, acts, d, j, k - 1);
    }
  }

  // ---------- starting up ----------

  /** The running jobs are exactly the launched ones, each launched once and from the recorded block. */
  ghost predicate Once(launches: seq<Launch>, jobs: map<JobDescriptor, uint64>) {
    && Distinct(Jobs(launches))
    && (forall d :: d in jobs <==> d in Jobs(launches))
    && (forall k :: 0 <= k < |launches| ==> launches[k].job in jobs && jobs[launches[k].job] == launches[k].block)
  }

  lemma {:induction false} OnceSnoc(launches: seq<Launch>, jobs: map<JobDescriptor, uint64>, next: Launch)
    requires Once(launches, jobs) && next.job !in jobs
    ensures Once(launches + [next], jobs[next.job := next.block])
  {
    assert Jobs(launches + [next]) == Jobs(launches) + [next.job];
    forall k | 0 <= k < |launches| ensures launches[k].job != next.job {
      assert launches[k].job in jobs;
    }
  }

  /** A reload that stops nothing adds its starts to the ones before. */
  lemma {:induction false} OnceReloaded(s: Status, s': Status, config: seq<JobDescriptor>)
    requires Once(s.launches, s.jobs) && Reloaded(s, s', config, true) && forall d :: d in s.jobs ==> d in config
    ensures Once(s'.launches, s'.jobs)
  {
    var old', news := s.launches, News(s, s');
    assert s'.launches == old' + news && Jobs(s'.launches) == Jobs(old') + Jobs(news);
    forall k | 0 <= k < |news| ensures news[k].job in Jobs(news) && news[k].job !in s.jobs {
      assert Jobs(news)[k] == news[k].job;
    }
    forall k | 0 <= k < |old'| ensures old'[k].job in s.jobs {
    }
  }

  /**
   Starting up: whatever is stored, and with duplicates in the configuration, exactly the
   configured jobs run, each started once, from its stored block if it has one and from its
   start block otherwise; no progress is lost.
   */
  method StartUp(storage: JobStorage, config: seq<JobDescriptor>, producible: JobDescriptor -> bool,
                 stopsCleanly: JobDescriptor -> bool)
    returns (c: Configurator, ok: bool)
    modifies storage
    ensures fresh(c) && c.storage == storage && storage.stored == old(storage.stored)
    ensures ok <==> forall d :: d in config ==> producible(d)
    ensures ok ==> forall d :: d in c.jobs <==> d in config
    ensures ok ==> forall d :: d in config ==>
              c.jobs[d] == if d in old(storage.stored) then old(storage.stored)[d] else d.startBlock
    ensures ok ==> Distinct(Jobs(c.launches)) && forall d :: d in config ==> d in Jobs(c.launches)
    ensures ok ==> forall k :: 0 <= k < |c.launches| ==>
              var l := c.launches[k];
              && l.job in config
              && l.block == if l.job in old(storage.stored) then old(storage.stored)[l.job] else l.job.startBlock
  {
    c := new Configurator(storage);
    ok := c.InitFromStorage(config, producible);
    if ok {
      ghost var resumed := c.View();
      ok := c.ReloadConfig(config, producible, stopsCleanly);
      assert ok ==> resumed.jobs.Keys - c.jobs.Keys == {};
      if ok {
        OnceReloaded(resumed, c.View(), config);
      }
    }
  }
}
