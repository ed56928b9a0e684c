// The thread pool, before it is shut down, as interleaved steps of its workers and of the
// threads that add work. A step is what a thread does between two points at which another
// one can see the difference; everything but the run of a job happens under the lock.
module ThreadPool {
  type Job(==)

  // Where a worker is. The number is the job's place in the order of starting.
  datatype Worker =
    | Locking                          // about to take the lock, at the start or after a wait that has ended
    | Checking                         // has the lock, at the head of its loop
    | Popped(i: nat, more: bool)       // has the lock and a job, and signals if there was more than one
    | Unlocking(i: nat)                // has the lock and a job
    | Running(i: nat)                  // runs a job, without the lock
    | Relocking                        // about to take the lock after a job
    | Returning                        // has the lock again, about to look whether there are jobs
    | Waiting                          // blocked on the condition

  // Who has the lock. An adding thread has still to push its job, to signal or to unlock.
  datatype Holder = Free | Held(w: nat) | Adding | Signalling | Leaving

  // What the scheduler can let happen next.
  datatype Step =
    | TakeLock(w: nat)      // lock(), by a worker that wants it
    | Look(w: nat)          // the loop condition and dequeue() up to its signal; or on to wait()
    | PassOn(w: nat)        // signal() in dequeue()
    | LetGo(w: nat)         // unlock() in dequeue()
    | Finish(w: nat)        // the job returns
    | Return(w: nat)        // the end of dequeue()
    | WakeUp(w: nat)        // a wait that ends without a signal
    | Add                   // lock() in add_work()
    | Push(job: Job, fits: bool)
    | Notify                // signal() in add_work()
    | Leave                 // unlock() in add_work()

  // All of a pool, as it stands between two steps.
  datatype State = State(jobs: seq<Job>, workers: seq<Worker>, holder: Holder, added: seq<Job>, started: seq<Job>,
    finished: set<nat>)

  class Pool {
    var jobs: seq<Job>
    var workers: seq<Worker>
    var holder: Holder

    // The record of all jobs ever pushed, of those that were taken out, and of which of
    // these have been finished.
    var added: seq<Job>
    var started: seq<Job>
    var finished: set<nat>

    constructor (size: nat)
      ensures Valid() && Now() == State([], seq(size, i => Locking), Free, [], [], {})
    {
      jobs, holder := [], Free;
      workers := seq(size, i => Locking);
      added, started, finished := [], [], {};
    }

    // ---- What always holds ----

    predicate HasLock(w: Worker) {
      w.Checking? || w.Popped? || w.Unlocking? || w.Returning?
    }

    predicate HasJob(w: Worker) {
      w.Popped? || w.Unlocking? || w.Running?
    }

    // Only the holder of the lock is at a point where it is needed.
    ghost predicate Exclusive()
      reads this`workers, this`holder
    {
      && (holder.Held? ==> holder.w < |workers|)
      && forall w: nat {:trigger workers[w]} :: w < |workers| ==> (HasLock(workers[w]) <==> holder == Held(w))
    }

    // Jobs are started in the order in which they were added.
    ghost predicate Fifo()
      reads this`jobs, this`added, this`started
    {
      added == started + jobs
    }

    // A started job is finished or in the hands of one worker.
    ghost predicate Has(w: nat, i: nat)
      requires w < |workers|
      reads this`workers
    {
      HasJob(workers[w]) && workers[w].i == i
    }

    ghost predicate HandOk(w: nat)
      requires w < |workers|
      reads this`workers, this`started, this`finished
    {
      HasJob(workers[w]) ==> workers[w].i < |started| && workers[w].i !in finished
    }

    ghost predicate Apart(w: nat, x: nat)
      requires w < |workers| && x < |workers|
      reads this`workers
    {
      w != x && HasJob(workers[w]) && HasJob(workers[x]) ==> workers[w].i != workers[x].i
    }

    ghost predicate Accounted()
      reads this`workers, this`started, this`finished
    {
      && (forall i <- finished :: i < |started|)
      && (forall w: nat {:trigger HandOk(w)} :: w < |workers| ==> HandOk(w))
      && (forall w: nat, x: nat {:trigger Apart(w, x)} :: w < |workers| && x < |workers| ==> Apart(w, x))
      && (forall i: nat :: i < |started| && i !in finished ==> exists w: nat :: w < |workers| && Has(w, i))
    }

    // While a worker has the lock and a job, its count of the queue is right.
    ghost predicate Counting()
      reads this`workers, this`jobs
    {
      forall w: nat {:trigger workers[w]} :: w < |workers| && workers[w].Popped? ==> (workers[w].more <==> jobs != [])
    }

    // A worker that looks at the queue next, or passes the signal on.
    predicate Awake(w: Worker) {
      w.Locking? || w.Checking? || (w.Popped? && w.more)
    }

    // No wake-up is lost: with jobs in the queue and a worker blocked, another one is awake,
    // or the signal is just being sent.
    ghost predicate Attended()
      reads this`jobs, this`workers, this`holder
    {
      jobs != [] && (exists w: nat :: w < |workers| && workers[w] == Waiting) ==>
        holder == Signalling || exists w: nat :: w < |workers| && Awake(workers[w])
    }

    ghost predicate Valid()
      reads this
    {
      Exclusive() && Fifo() && Accounted() && Counting() && Attended()
    }

    // ---- Steps ----

    // One blocked worker, if there is any, is on its way to the lock again.
    static ghost predicate Wakes(a: seq<Worker>, b: seq<Worker>) {
      if exists w: nat :: w < |a| && a[w] == Waiting then
        exists w: nat :: w < |a| && a[w] == Waiting && b == a[w := Locking]
      else b == a
    }

    method Signal()
      modifies this`workers
      ensures |workers| == |old(workers)| && Wakes(old(workers), workers)
    {
      if w: nat :| w < |workers| && workers[w] == Waiting {
        workers := workers[w := Locking];
      }
    }

    // A worker that neither has nor gets the lock or a job changes its place.
    method Move(w: nat, to: Worker, h: Holder)
      requires w < |workers|
      modifies this`workers, this`holder
      ensures workers == old(workers)[w := to] && holder == h
    {
      workers := workers[w := to];
      holder := h;
    }

    // The worker keeps what it has in hand.
    twostate predicate SameJob(w: nat)
      requires |workers| == |old(workers)| && w < |workers|
      reads *
    {
      HasJob(workers[w]) == HasJob(old(workers)[w]) && (HasJob(workers[w]) ==> workers[w].i == old(workers)[w].i)
    }

    twostate lemma JobsStay()
      requires old(Accounted()) && |workers| == |old(workers)| && started == old(started) && finished == old(finished)
      requires forall w: nat {:trigger SameJob(w)} :: w < |workers| ==> SameJob(w)
      ensures Accounted()
    {
      forall v: nat | v < |workers| ensures HandOk(v) {
        assert old(HandOk(v)) && SameJob(v);
      }
      forall v: nat, x: nat | v < |workers| && x < |workers| ensures Apart(v, x) {
        assert old(Apart(v, x)) && SameJob(v) && SameJob(x);
      }
      forall i: nat | i < |started| && i !in finished
        ensures exists w: nat :: w < |workers| && Has(w, i)
      {
        var w: nat :| w < |old(workers)| && old(Has(w, i));
        assert SameJob(w) && Has(w, i);
      }
    }

    // The attending worker stays awake, and no other one has been blocked.
    twostate lemma StaysAttended()
      requires old(Attended()) && |workers| == |old(workers)| && (jobs != [] ==> old(jobs) != [])
      requires old(holder) == Signalling ==> holder == Signalling
      requires jobs != [] ==> forall w: nat {:trigger workers[w]} :: w < |workers| ==>
        (workers[w] == Waiting ==> old(workers)[w] == Waiting) && (Awake(old(workers)[w]) ==> Awake(workers[w]))
      ensures Attended()
    {
      if jobs != [] && holder != Signalling && exists w: nat :: w < |workers| && workers[w] == Waiting {
        var v: nat :| v < |workers| && workers[v] == Waiting;
        assert old(workers)[v] == Waiting;
        var w: nat :| w < |old(workers)| && Awake(old(workers)[w]);
        assert Awake(workers[w]);
      }
    }

    method TakeLock(w: nat)
      requires Valid() && w < |workers| && holder == Free && (workers[w].Locking? || workers[w].Relocking?)
      modifies this`workers, this`holder
      ensures Valid() && |workers| == |old(workers)| && holder == Held(w)
      ensures workers == old(workers)[w := if old(workers)[w].Locking? then Checking else Returning]
    {
      Move(w, if workers[w].Locking? then Checking else Returning, Held(w));
      JobsStay();
      StaysAttended();
    }

    // The head of the loop: a job is taken out, or the worker goes to sleep on an empty queue.
    method Look(w: nat)
      requires Valid() && w < |workers| && workers[w] == Checking
      modifies this`workers, this`holder, this`jobs, this`started
      ensures Valid() && |workers| == |old(workers)| && added == old(added)
      ensures old(jobs) == [] ==>
        jobs == [] && started == old(started) && workers == old(workers)[w := Waiting] && holder == Free
      ensures old(jobs) != [] ==>
        jobs == old(jobs)[1..] && started == old(started) + [old(jobs)[0]] && holder == Held(w)
      ensures old(jobs) != [] ==> workers == old(workers)[w := Popped(|old(started)|, |old(jobs)| > 1)]
    {
      if |jobs| > 0 {
        started := started + [jobs[0]];
        Move(w, Popped(|started| - 1, |jobs| > 1), Held(w));
        jobs := jobs[1..];
        JobTaken(w);
        assert jobs != [] ==> Awake(workers[w]);
      } else {
        Move(w, Waiting, Free);
        JobsStay();
      }
    }

    // Worker w has the job that was started last.
    twostate lemma JobTaken(w: nat)
      requires old(Accounted()) && |workers| == |old(workers)| && finished == old(finished) && w < |workers|
      requires |started| == |old(started)| + 1 && HasJob(workers[w]) && workers[w].i == |old(started)| &&
        !HasJob(old(workers)[w])
      requires forall v: nat {:trigger SameJob(v)} :: v < |workers| && v != w ==> SameJob(v)
      ensures Accounted()
    {
      forall v: nat | v < |workers| ensures HandOk(v) {
        assert old(HandOk(v)) && (v != w ==> old(Apart(v, w)) && SameJob(v));
      }
      forall v: nat, x: nat | v < |workers| && x < |workers| ensures Apart(v, x) {
        assert old(Apart(v, x)) && old(HandOk(v)) && old(HandOk(x)) && (v != w ==> SameJob(v)) &&
          (x != w ==> SameJob(x));
      }
      forall i: nat | i < |started| && i !in finished
        ensures exists v: nat :: v < |workers| && Has(v, i)
      {
        if i == |old(started)| {
          assert Has(w, i);
        } else {
          var v: nat :| v < |old(workers)| && old(Has(v, i));
          assert SameJob(v) && Has(v, i);
        }
      }
    }

    // signal() and unlock() in dequeue().
    method PassOn(w: nat)
      requires Valid() && w < |workers| && workers[w].Popped?
      modifies this`workers, this`holder
      ensures Valid() && |workers| == |old(workers)| && holder == Held(w)
      ensures exists mid ::
        && (if old(workers)[w].more then Wakes(old(workers), mid) else mid == old(workers))
        && w < |mid| && workers == mid[w := Unlocking(old(workers)[w].i)]
    {
      var p := workers[w];
      if p.more {
        Signal();
      }
      ghost var mid := workers;
      Move(w, Unlocking(p.i), Held(w));
      JobsStay();
      if p.more { Woken(); }
    }

    // After the signal a worker is awake, if one is blocked at all.
    twostate lemma Woken()
      requires |workers| == |old(workers)|
      requires forall w: nat {:trigger workers[w]} :: w < |workers| && workers[w] == Waiting ==>
        old(workers)[w] == Waiting
      requires (exists w: nat :: w < |workers| && old(workers)[w] == Waiting) ==>
        exists w: nat :: w < |workers| && old(workers)[w] == Waiting && workers[w] == Locking
      ensures Attended()
    {
      if exists w: nat :: w < |workers| && workers[w] == Waiting {
        var v: nat :| v < |workers| && workers[v] == Waiting;
        assert old(workers)[v] == Waiting;
        var u: nat :| u < |workers| && old(workers)[u] == Waiting && workers[u] == Locking;
        assert Awake(workers[u]);
      }
    }

    method LetGo(w: nat)
      requires Valid() && w < |workers| && workers[w].Unlocking?
      modifies this`workers, this`holder
      ensures Valid() && |workers| == |old(workers)| && holder == Free &&
        workers == old(workers)[w := Running(old(workers)[w].i)]
    {
      Move(w, Running(workers[w].i), Free);
      JobsStay();
      StaysAttended();
    }

    method Finish(w: nat)
      requires Valid() && w < |workers| && workers[w].Running?
      modifies this`workers, this`holder, this`finished
      ensures Valid() && |workers| == |old(workers)| && finished == old(finished) + {old(workers)[w].i}
      ensures workers == old(workers)[w := Relocking] && holder == old(holder)
    {
      finished := finished + {workers[w].i};
      Move(w, Relocking, holder);
      JobDone(w);
      StaysAttended();
    }

    twostate lemma JobDone(w: nat)
      requires old(Accounted()) && |workers| == |old(workers)| && started == old(started) && w < |workers|
      requires HasJob(old(workers)[w]) && !HasJob(workers[w]) && finished == old(finished) + {old(workers)[w].i}
      requires forall v: nat {:trigger SameJob(v)} :: v < |workers| && v != w ==> SameJob(v)
      ensures Accounted()
    {
      assert old(HandOk(w));
      forall v: nat | v < |workers| ensures HandOk(v) {
        assert old(HandOk(v)) && (v != w ==> old(Apart(v, w)) && SameJob(v));
      }
      forall v: nat, x: nat | v < |workers| && x < |workers| ensures Apart(v, x) {
        assert old(Apart(v, x)) && old(HandOk(v)) && old(HandOk(x)) && (v != w ==> SameJob(v)) &&
          (x != w ==> SameJob(x));
      }
      forall i: nat | i < |started| && i !in finished
        ensures exists v: nat :: v < |workers| && Has(v, i)
      {
        var v: nat :| v < |old(workers)| && old(Has(v, i));
        assert SameJob(v) && Has(v, i);
      }
    }

    // The end of dequeue(): around the loop if there are jobs, else to sleep.
    method Return(w: nat)
      requires Valid() && w < |workers| && workers[w] == Returning
      modifies this`workers, this`holder
      ensures Valid() && |workers| == |old(workers)| && holder == (if jobs == [] then Free else Held(w))
      ensures workers == old(workers)[w := if jobs == [] then Waiting else Checking]
    {
      if |jobs| > 0 {
        Move(w, Checking, Held(w));
        StaysAttended();
      } else {
        Move(w, Waiting, Free);
      }
      JobsStay();
    }

    method WakeUp(w: nat)
      requires Valid() && w < |workers| && workers[w] == Waiting
      modifies this`workers, this`holder
      ensures Valid() && |workers| == |old(workers)| && workers == old(workers)[w := Locking] && holder == old(holder)
    {
      Move(w, Locking, holder);
      JobsStay();
      StaysAttended();
    }

    // ---- Adding work ----

    method Add()
      requires Valid() && holder == Free
      modifies this`holder
      ensures Valid() && |workers| == |old(workers)| && holder == Adding
    {
      holder := Adding;
      JobsStay();
      StaysAttended();
    }

    // The list may have no room: then add_work fails and nothing has changed.
    method Push(job: Job, fits: bool)
      requires Valid() && holder == Adding
      modifies this`holder, this`jobs, this`added
      ensures Valid() && |workers| == |old(workers)|
      ensures if fits then added == old(added) + [job] && jobs == old(jobs) + [job] && holder == Signalling
        else added == old(added) && jobs == old(jobs) && holder == Leaving
    {
      if fits {
        jobs := jobs + [job];
        added := added + [job];
        holder := Signalling;
      } else {
        holder := Leaving;
        StaysAttended();
      }
      JobsStay();
    }

    method Notify()
      requires Valid() && holder == Signalling
      modifies this`workers, this`holder
      ensures Valid() && |workers| == |old(workers)| && holder == Leaving && Wakes(old(workers), workers)
    {
      Signal();
      holder := Leaving;
      JobsStay();
      Woken();
    }

    method Leave()
      requires Valid() && holder == Leaving
      modifies this`holder
      ensures Valid() && |workers| == |old(workers)| && holder == Free
    {
      holder := Free;
      JobsStay();
      StaysAttended();
    }

    // ---- Runs ----

    function Now(): State
      reads this
    {
      State(jobs, workers, holder, added, started, finished)
    }

    static predicate Enabled(s: Step, a: State) {
      match s
      case TakeLock(w) => w < |a.workers| && a.holder == Free && (a.workers[w].Locking? || a.workers[w].Relocking?)
      case Look(w) => w < |a.workers| && a.workers[w] == Checking
      case PassOn(w) => w < |a.workers| && a.workers[w].Popped?
      case LetGo(w) => w < |a.workers| && a.workers[w].Unlocking?
      case Finish(w) => w < |a.workers| && a.workers[w].Running?
      case Return(w) => w < |a.workers| && a.workers[w] == Returning
      case WakeUp(w) => w < |a.workers| && a.workers[w] == Waiting
      case Add => a.holder == Free
      case Push(job, fits) => a.holder == Adding
      case Notify => a.holder == Signalling
      case Leave => a.holder == Leaving
    }

    // What a step does. Which worker a signal wakes is left open.
    static ghost predicate Does(s: Step, a: State, b: State)
      requires Enabled(s, a)
    {
      match s
      case TakeLock(w) =>
        b == a.(workers := a.workers[w := if a.workers[w].Locking? then Checking else Returning], holder := Held(w))
      case Look(w) =>
        if a.jobs == [] then b == a.(workers := a.workers[w := Waiting], holder := Free)
        else b == a.(jobs := a.jobs[1..], started := a.started + [a.jobs[0]], holder := Held(w),
          workers := a.workers[w := Popped(|a.started|, |a.jobs| > 1)])
      case PassOn(w) =>
        && |b.workers| == |a.workers|
        && b == a.(workers := b.workers, holder := Held(w))
        && PassedOn(w, a.workers, b.workers)
      case LetGo(w) => b == a.(workers := a.workers[w := Running(a.workers[w].i)], holder := Free)
      case Finish(w) => b == a.(workers := a.workers[w := Relocking], finished := a.finished + {a.workers[w].i})
      case Return(w) =>
        b == if a.jobs == [] then a.(workers := a.workers[w := Waiting], holder := Free)
          else a.(workers := a.workers[w := Checking], holder := Held(w))
      case WakeUp(w) => b == a.(workers := a.workers[w := Locking])
      case Add => b == a.(holder := Adding)
      case Push(job, fits) =>
        b == if fits then a.(jobs := a.jobs + [job], added := a.added + [job], holder := Signalling)
          else a.(holder := Leaving)
      case Notify => b == a.(workers := b.workers, holder := Leaving) && Wakes(a.workers, b.workers)
      case Leave => b == a.(holder := Free)
    }

    // Worker w goes on to unlock; if it had taken out one of several jobs, a signal has been sent.
    static ghost predicate PassedOn(w: nat, a: seq<Worker>, b: seq<Worker>)
      requires w < |a| && a[w].Popped?
    {
      exists mid :: (if a[w].more then Wakes(a, mid) else mid == a) && w < |mid| && b == mid[w := Unlocking(a[w].i)]
    }

    method Do(s: Step)
      requires Valid() && Enabled(s, Now())
      modifies this
      ensures Valid() && Does(s, old(Now()), Now()) && |workers| == |old(workers)|
    {
      match s {
        case TakeLock(w) => TakeLock(w);
        case Look(w) => Look(w);
        case PassOn(w) => PassOn(w);
        case LetGo(w) => LetGo(w);
        case Finish(w) => Finish(w);
        case Return(w) => Return(w);
        case WakeUp(w) => WakeUp(w);
        case Add => Add();
        case Push(job, fits) => Push(job, fits);
        case Notify => Notify();
        case Leave => Leave();
      }
    }

    // A step that is not possible at its turn is passed over.
    static ghost predicate Follows(s: Step, a: State, b: State) {
      if Enabled(s, a) then Does(s, a, b) else b == a
    }

    // The first n steps lead from one state of the trace to the next.
    static ghost predicate Traced(schedule: seq<Step>, trace: seq<State>, n: nat)
      requires n <= |schedule|
    {
      |trace| == n + 1 && forall i :: 0 <= i < n ==> Follows(schedule[i], trace[i], trace[i + 1])
    }

    // The job that a step adds, takes out or finishes, if it does.
    static ghost function Added(s: Step, a: State): seq<Job> {
      if Enabled(s, a) && s.Push? && s.fits then [s.job] else []
    }

    static ghost function Taken(s: Step, a: State): seq<Job> {
      if Enabled(s, a) && s.Look? && a.jobs != [] then [a.jobs[0]] else []
    }

    static ghost function Ended(s: Step, a: State): set<nat> {
      if Enabled(s, a) && s.Finish? then {a.workers[s.w].i} else {}
    }

    static ghost function AllAdded(schedule: seq<Step>, trace: seq<State>, n: nat): seq<Job>
      requires n <= |schedule| && n < |trace|
    {
      if n == 0 then [] else AllAdded(schedule, trace, n - 1) + Added(schedule[n - 1], trace[n - 1])
    }

    static ghost function AllTaken(schedule: seq<Step>, trace: seq<State>, n: nat): seq<Job>
      requires n <= |schedule| && n < |trace|
    {
      if n == 0 then [] else AllTaken(schedule, trace, n - 1) + Taken(schedule[n - 1], trace[n - 1])
    }

    static ghost function AllEnded(schedule: seq<Step>, trace: seq<State>, n: nat): set<nat>
      requires n <= |schedule| && n < |trace|
    {
      if n == 0 then {} else AllEnded(schedule, trace, n - 1) + Ended(schedule[n - 1], trace[n - 1])
    }

    static lemma StepRecords(s: Step, a: State, b: State)
      requires Follows(s, a, b)
      ensures b.added == a.added + Added(s, a) && b.started == a.started + Taken(s, a)
      ensures b.finished == a.finished + Ended(s, a) && |b.workers| == |a.workers|
    {
    }

    // What a run records is what its steps have done.
    static lemma {:induction false} RecordsAre(schedule: seq<Step>, trace: seq<State>, n: nat)
      requires n <= |schedule| && Traced(schedule, trace, |schedule|)
      ensures trace[n].added == trace[0].added + AllAdded(schedule, trace, n)
      ensures trace[n].started == trace[0].started + AllTaken(schedule, trace, n)
      ensures trace[n].finished == trace[0].finished + AllEnded(schedule, trace, n)
      ensures |trace[n].workers| == |trace[0].workers|
    {
      if n > 0 {
        RecordsAre(schedule, trace, n - 1);
        StepRecords(schedule[n - 1], trace[n - 1], trace[n]);
      }
    }

    // Any interleaving: step by step, the pool does what the steps say, and stays valid.
    method Run(schedule: seq<Step>) returns (ghost trace: seq<State>)
      requires Valid()
      modifies this
      ensures Valid() && Traced(schedule, trace, |schedule|)
      ensures trace[0] == old(Now()) && trace[|schedule|] == Now() && |workers| == |old(workers)|
      ensures added == old(added) + AllAdded(schedule, trace, |schedule|)
      ensures started == old(started) + AllTaken(schedule, trace, |schedule|)
      ensures finished == old(finished) + AllEnded(schedule, trace, |schedule|)
    {
      trace := [Now()];
      for n := 0 to |schedule|
        invariant Valid() && Traced(schedule, trace, n) && trace[0] == old(Now()) && trace[n] == Now()
      {
        if Enabled(schedule[n], Now()) {
          Do(schedule[n]);
        }
        trace := trace + [Now()];
      }
      RecordsAre(schedule, trace, |schedule|);
    }

    // Every job that was added is in exactly one place: in the queue, in the hands of exactly
    // one worker, or done. Jobs were started in the order of adding.
    lemma OnePlace(i: nat)
      requires Valid() && i < |added|
      ensures i < |started| ==> started[i] == added[i]
      ensures i >= |started| ==>
        jobs[i - |started|] == added[i] && i !in finished && forall w: nat :: w < |workers| ==> !Has(w, i)
      ensures i < |started| && i in finished ==> forall w: nat :: w < |workers| ==> !Has(w, i)
      ensures i < |started| && i !in finished ==>
        exists w: nat :: w < |workers| && Has(w, i) && forall x: nat :: x < |workers| && Has(x, i) ==> x == w
    {
      forall w: nat | w < |workers| ensures Has(w, i) ==> i < |started| && i !in finished { assert HandOk(w); }
      if i < |started| && i !in finished {
        var w: nat :| w < |workers| && Has(w, i);
        forall x: nat | x < |workers| && Has(x, i) ensures x == w { assert Apart(w, x); }
      }
    }

    // With a job in the queue and the lock free, the workers cannot all be asleep: one is on
    // its way to the lock to look at the queue, or none sleeps at all.
    lemma NotAllAsleep()
      requires Valid() && jobs != [] && holder == Free && |workers| > 0
      ensures (exists w: nat :: w < |workers| && workers[w] == Locking) ||
        forall w: nat :: w < |workers| ==> workers[w].Running? || workers[w].Relocking?
    {
      forall w: nat | w < |workers| ensures !HasLock(workers[w]) { }
      if exists w: nat :: w < |workers| && workers[w] == Waiting {
        var w: nat :| w < |workers| && Awake(workers[w]);
        assert workers[w] == Locking;
      } else {
        assert forall w: nat :: w < |workers| ==> workers[w] != Waiting;
      }
    }

    // ---- All work gets done ----

    // Steps that neither begin nor extend any work, nor wake a worker up without a signal.
    static predicate Calm(s: Step) {
      !s.Add? && !s.WakeUp? && !(s.Push? && s.fits)
    }

    // How far a worker, or a thread that adds work, is from rest.
    static function Stage(w: Worker): nat {
      match w
      case Waiting => 0
      case Checking => 1
      case Locking => 2
      case Returning => 3
      case Relocking => 4
      case Running(_) => 5
      case Unlocking(_) => 6
      case Popped(_, _) => 9
    }

    static function Stages(ws: seq<Worker>): nat {
      if ws == [] then 0 else Stage(ws[0]) + Stages(ws[1..])
    }

    static function Distance(a: State): nat {
      9 * |a.jobs| + Stages(a.workers) +
        match a.holder case Adding => 4 case Signalling => 4 case Leaving => 1 case _ => 0
    }

    static lemma {:induction false} StagesAre(ws: seq<Worker>, w: nat, x: Worker)
      requires w < |ws|
      ensures Stages(ws[w := x]) + Stage(ws[w]) == Stages(ws) + Stage(x)
    {
      if w == 0 {
        assert ws[w := x][1..] == ws[1..];
      } else {
        StagesAre(ws[1..], w - 1, x);
        assert ws[w := x][1..] == ws[1..][w - 1 := x];
      }
    }

    static lemma WakesStages(a: seq<Worker>, b: seq<Worker>)
      requires Wakes(a, b)
      ensures |a| == |b| && Stages(b) <= Stages(a) + 2
    {
      if exists w: nat :: w < |a| && a[w] == Waiting {
        var w: nat :| w < |a| && a[w] == Waiting && b == a[w := Locking];
        StagesAre(a, w, Locking);
      }
    }

    static lemma PassOnStages(w: nat, a: seq<Worker>, b: seq<Worker>)
      requires w < |a| && a[w].Popped? && PassedOn(w, a, b)
      ensures Stages(b) < Stages(a)
    {
      var mid :| (if a[w].more then Wakes(a, mid) else mid == a) && w < |mid| && b == mid[w := Unlocking(a[w].i)];
      if a[w].more { WakesStages(a, mid); }
      assert mid[w] == a[w];
      StagesAre(mid, w, Unlocking(a[w].i));
    }

    // Every calm step leads nearer to rest, so there are only so many of them in a row.
    static lemma CalmStep(s: Step, a: State, b: State)
      requires Enabled(s, a) && Does(s, a, b) && Calm(s)
      ensures Distance(b) < Distance(a)
    {
      match s
      case TakeLock(w) => StagesAre(a.workers, w, b.workers[w]);
      case Look(w) => StagesAre(a.workers, w, b.workers[w]);
      case PassOn(w) =>
        PassOnStages(w, a.workers, b.workers);
      case LetGo(w) => StagesAre(a.workers, w, b.workers[w]);
      case Finish(w) => StagesAre(a.workers, w, b.workers[w]);
      case Return(w) => StagesAre(a.workers, w, b.workers[w]);
      case Push(job, fits) =>
      case Notify => WakesStages(a.workers, b.workers);
      case Leave =>
    }

    // So a run of calm steps that are all possible is no longer than the way to rest.
    static lemma {:induction false} CalmRun(schedule: seq<Step>, trace: seq<State>, n: nat)
      requires n <= |schedule| && Traced(schedule, trace, |schedule|)
      requires forall i :: 0 <= i < |schedule| ==> Calm(schedule[i]) && Enabled(schedule[i], trace[i])
      ensures n + Distance(trace[n]) <= Distance(trace[0])
    {
      if n > 0 {
        CalmRun(schedule, trace, n - 1);
        assert Follows(schedule[n - 1], trace[n - 1], trace[n]);
        CalmStep(schedule[n - 1], trace[n - 1], trace[n]);
      }
    }

    ghost predicate AtRest()
      reads this
    {
      && holder == Free && jobs == [] && (forall w: nat :: w < |workers| ==> workers[w] == Waiting)
      && forall i: nat :: i < |added| ==> i in finished
    }

    // When all workers are asleep there is nothing to do.
    lemma AllAsleep()
      requires Valid() && |workers| > 0 && holder == Free && forall w: nat :: w < |workers| ==> workers[w] == Waiting
      ensures AtRest()
    {
      assert workers[0] == Waiting && forall w: nat :: w < |workers| ==> !Awake(workers[w]) && !HasJob(workers[w]);
      assert jobs == [];
      forall i: nat | i < |added| ensures i in finished {
        assert i < |started|;
        assert forall w: nat :: w < |workers| ==> !Has(w, i);
      }
    }

    // No wake-up is lost: as long as anything is left to do, some calm step is possible. The
    // job is one that a thread has just begun to add.
    lemma CanGoOn(job: Job) returns (s: Step)
      requires Valid() && |workers| > 0 && !AtRest()
      ensures Calm(s) && Enabled(s, Now())
    {
      match holder {
        case Held(w) =>
          s := match workers[w]
            case Checking => Step.Look(w)
            case Popped(_, _) => Step.PassOn(w)
            case Unlocking(_) => Step.LetGo(w)
            case _ => Step.Return(w);
        case Adding => s := Step.Push(job, false);
        case Signalling => s := Step.Notify;
        case Leaving => s := Step.Leave;
        case Free =>
          forall w: nat | w < |workers| ensures !HasLock(workers[w]) { }
          if w: nat :| w < |workers| && workers[w] != Waiting {
            s := if workers[w].Running? then Step.Finish(w) else Step.TakeLock(w);
          } else {
            AllAsleep();
          }
      }
    }

    // add_work() from beginning to end, with no one else in between: the job is queued.
    method Submit(job: Job)
      requires Valid() && holder == Free
      modifies this
      ensures Valid() && holder == Free && jobs == old(jobs) + [job] && added == old(added) + [job]
    {
      ghost var a := Now();
      var schedule := [Step.Add, Step.Push(job, true), Step.Notify, Step.Leave];
      ghost var trace := Run(schedule);
      assert forall i :: 0 <= i < 4 ==> Follows(schedule[i], trace[i], trace[i + 1]);
      assert trace[1] == a.(holder := Adding);
      assert trace[2] == trace[1].(jobs := a.jobs + [job], added := a.added + [job], holder := Signalling);
    }

    // At rest nothing goes on unless work comes in or a worker wakes up by itself, and both can
    // happen.
    lemma NothingToDo(s: Step)
      requires AtRest() && Enabled(s, Now())
      ensures s.Add? || s.WakeUp?
      ensures Enabled(Step.Add, Now()) && forall w: nat :: w < |workers| ==> Enabled(Step.WakeUp(w), Now())
    {
    }
  }
}
