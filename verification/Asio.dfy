/**
 The queue of asynchronous I/O requests. A request is idle, held by the caller, running or done.
 The worker serves running requests in the order of their submission; waiting takes the first
 of them. Write-backs go back to the idle list by themselves and their number is limited.
 */
module Asio {
  import opened Basics

  datatype Op = Free | Read | Write | WriteBack

  /** What an operation that may wait for the worker comes to: it does its work, a write-back
      fails and ends the program, or the assertion that there is something to wait for fails. */
  datatype Outcome = Done | Died | Stuck

  class Request {
    var op: Op
    var len: nat
    var status: int
    var submitted: bool

    constructor ()
      ensures op == Free && len == 0 && status == -1 && !submitted
    {
      op, len, status, submitted := Free, 0, -1, false;
    }
  }

  // ----- where the requests are -----

  /** The places of requests. `backs` tells which of the running ones are write-backs. */
  datatype Places = Places(idle: seq<Request>, caller: set<Request>, running: seq<Request>, backs: seq<bool>,
                           done: seq<Request>)

  /** Every request created is in exactly one place. */
  ghost predicate Partition(p: Places, all: set<Request>) {
    multiset(p.idle) + multiset(p.caller) + multiset(p.running) + multiset(p.done) == multiset(all)
  }

  lemma OnePlace(p: Places, all: set<Request>, r: Request)
    requires Partition(p, all)
    ensures r in p.idle || r in p.caller || r in p.running || r in p.done <==> r in all
    ensures r in p.idle ==> r !in p.caller && r !in p.running && r !in p.done
    ensures r in p.caller ==> r !in p.running && r !in p.done
    ensures r in p.running ==> r !in p.done
  {
    assert multiset(all)[r] <= 1;
    assert r in p.idle <==> r in multiset(p.idle);
    assert r in p.running <==> r in multiset(p.running);
    assert r in p.done <==> r in multiset(p.done);
  }

  lemma AddOne(s: set<Request>, r: Request)
    requires r !in s
    ensures multiset(s + {r}) == multiset(s) + multiset{r} && |s + {r}| == |s| + 1
  {
  }

  lemma RemoveOne(s: set<Request>, r: Request)
    requires r in s
    ensures multiset(s) == multiset(s - {r}) + multiset{r} && |s - {r}| == |s| - 1
  {
  }

  lemma FirstOf(s: seq<Request>)
    requires s != []
    ensures multiset(s) == multiset{s[0]} + multiset(s[1..])
  {
    assert s == [s[0]] + s[1..];
  }

  lemma PlaceNew(p: Places, all: set<Request>, r: Request)
    requires Partition(p, all) && r !in all
    ensures r !in p.caller && r !in p.running && |p.caller + {r}| == |p.caller| + 1
    ensures Partition(p.(caller := p.caller + {r}), all + {r})
  {
    OnePlace(p, all, r);
    AddOne(all, r);
    AddOne(p.caller, r);
  }

  lemma PlaceIdle(p: Places, all: set<Request>)
    requires Partition(p, all) && p.idle != []
    ensures var r := p.idle[0];
            && r in all && r !in p.caller && r !in p.running && |p.caller + {r}| == |p.caller| + 1
            && Partition(p.(idle := p.idle[1..], caller := p.caller + {r}), all)
  {
    OnePlace(p, all, p.idle[0]);
    FirstOf(p.idle);
    AddOne(p.caller, p.idle[0]);
  }

  lemma PlacePut(p: Places, all: set<Request>, r: Request)
    requires Partition(p, all) && r in p.caller
    ensures r in all && r !in p.running && |p.caller - {r}| == |p.caller| - 1
    ensures Partition(p.(idle := p.idle + [r], caller := p.caller - {r}), all)
  {
    OnePlace(p, all, r);
    RemoveOne(p.caller, r);
  }

  lemma PlaceSubmit(p: Places, all: set<Request>, r: Request, b: bool)
    requires Partition(p, all) && r in p.caller
    ensures r in all && r !in p.running && |p.caller - {r}| == |p.caller| - 1
    ensures Partition(p.(running := p.running + [r], backs := p.backs + [b], caller := p.caller - {r}), all)
  {
    OnePlace(p, all, r);
    RemoveOne(p.caller, r);
  }

  /** Taking the first running request: to the idle list if it is a write-back, or else to those
      that are done. */
  function Finish(p: Places): Places
    requires p.running != [] && |p.running| == |p.backs|
  {
    var r, q := p.running[0], p.(running := p.running[1..], backs := p.backs[1..]);
    if p.backs[0] then q.(idle := p.idle + [r]) else q.(done := p.done + [r])
  }

  lemma PlaceFinish(p: Places, all: set<Request>)
    requires Partition(p, all) && p.running != [] && |p.running| == |p.backs|
    ensures Partition(Finish(p), all)
    ensures p.running[0] in all && p.running[0] !in p.running[1..]
  {
    var r := p.running[0];
    OnePlace(p, all, r);
    FirstOf(p.running);
    assert multiset(all)[r] <= 1;
    assert r in p.running[1..] <==> r in multiset(p.running[1..]);
  }

  lemma PlaceReturn(p: Places, all: set<Request>)
    requires Partition(p, all) && p.done != []
    ensures var r := p.done[0];
            && r in all && r !in p.caller && r !in p.running && |p.caller + {r}| == |p.caller| + 1
            && Partition(p.(done := p.done[1..], caller := p.caller + {r}), all)
  {
    OnePlace(p, all, p.done[0]);
    FirstOf(p.done);
    AddOne(p.caller, p.done[0]);
  }

  // ----- order -----

  /** The requests of a sequence that are marked as write-backs, or those that are not. */
  function Select(s: seq<Request>, backs: seq<bool>, back: bool): (t: seq<Request>)
    requires |s| == |backs|
  {
    if s == [] then []
    else (if backs[0] == back then [s[0]] else []) + Select(s[1..], backs[1..], back)
  }

  lemma {:induction false} SelectMore(s: seq<Request>, backs: seq<bool>, r: Request, b: bool, back: bool)
    requires |s| == |backs|
    ensures Select(s + [r], backs + [b], back) == Select(s, backs, back) + if b == back then [r] else []
  {
    if s == [] {
      assert s + [r] == [r] && backs + [b] == [b];
    } else {
      SelectMore(s[1..], backs[1..], r, b, back);
      assert (s + [r])[1..] == s[1..] + [r] && (backs + [b])[1..] == backs[1..] + [b];
    }
  }

  /** The running write-backs. */
  function Backs(p: Places): seq<Request>
    requires |p.running| == |p.backs|
  {
    Select(p.running, p.backs, true)
  }

  /** What asio_wait has yet to return, in its order: the requests that are done and then those
      still running that are no write-backs. */
  function Pending(p: Places): seq<Request>
    requires |p.running| == |p.backs|
  {
    p.done + Select(p.running, p.backs, false)
  }

  lemma FinishOrder(p: Places)
    requires p.running != [] && |p.running| == |p.backs|
    ensures Pending(Finish(p)) == Pending(p)
    ensures p.idle + Backs(p) == Finish(p).idle + Backs(Finish(p))
    ensures |Backs(Finish(p))| == |Backs(p)| - (if p.backs[0] then 1 else 0)
  {
    var r := p.running[0];
    var f, t := Select(p.running[1..], p.backs[1..], false), Select(p.running[1..], p.backs[1..], true);
    assert p.done + ([r] + f) == (p.done + [r]) + f;
    assert p.idle + ([r] + t) == (p.idle + [r]) + t;
  }

  lemma SubmitOrder(p: Places, r: Request, b: bool)
    requires |p.running| == |p.backs|
    ensures var q := p.(running := p.running + [r], backs := p.backs + [b], caller := p.caller - {r});
            && Pending(q) == Pending(p) + (if b then [] else [r])
            && Backs(q) == Backs(p) + (if b then [r] else [])
  {
    SelectMore(p.running, p.backs, r, b, true);
    SelectMore(p.running, p.backs, r, b, false);
    assert p.done + (Select(p.running, p.backs, false) + [r]) == (p.done + Select(p.running, p.backs, false)) + [r];
  }

  /** The places after the first k running requests were waited for. */
  function After(p: Places, k: nat): (q: Places)
    requires |p.running| == |p.backs| && k <= |p.running|
  {
    p.(running := p.running[k..], backs := p.backs[k..],
       done := p.done + Select(p.running[..k], p.backs[..k], false),
       idle := p.idle + Select(p.running[..k], p.backs[..k], true))
  }

  lemma AfterNone(p: Places)
    requires |p.running| == |p.backs|
    ensures After(p, 0) == p
  {
    assert p.running[0..] == p.running && p.backs[0..] == p.backs;
    assert p.done + [] == p.done && p.idle + [] == p.idle;
  }

  lemma AfterOne(p: Places, k: nat)
    requires |p.running| == |p.backs| && k < |p.running|
    ensures Finish(After(p, k)) == After(p, k + 1)
  {
    var s, b := p.running[..k], p.backs[..k];
    assert p.running[..k + 1] == s + [p.running[k]] && p.backs[..k + 1] == b + [p.backs[k]];
    SelectMore(s, b, p.running[k], p.backs[k], true);
    SelectMore(s, b, p.running[k], p.backs[k], false);
    hide Select;
    Assoc(p.done, Select(s, b, false), [p.running[k]]);
    Assoc(p.idle, Select(s, b, true), [p.running[k]]);
    assert p.running[k..][1..] == p.running[k + 1..] && p.backs[k..][1..] == p.backs[k + 1..];
  }

  /** A request marked as a write-back is one of them. */
  lemma BacksFirst(p: Places)
    requires |p.running| == |p.backs|
    ensures p.running == [] ==> Backs(p) == []
    ensures p.running != [] && p.backs[0] ==> |Backs(p)| > 0
  {
  }

  // ----- what the worker reports -----

  /** The status the worker reports for each running request once it has served it. */
  type Worker = Request -> int

  /** The request does not read or write all of its bytes. */
  ghost predicate Short(worker: Worker, r: Request)
    reads r
  {
    worker(r) != r.len
  }

  /** The position of the first write-back, or of the first other request; the length if there is none. */
  function FirstAt(backs: seq<bool>, back: bool): (k: nat)
    ensures k <= |backs| && (k < |backs| ==> backs[k] == back)
    ensures forall i :: 0 <= i < k ==> backs[i] != back
  {
    if backs == [] || backs[0] == back then 0 else 1 + FirstAt(backs[1..], back)
  }

  /** One of the write-backs among the first k running requests is not complete. */
  ghost predicate SomeShort(worker: Worker, running: seq<Request>, backs: seq<bool>, k: nat)
    requires k <= |running| == |backs|
    reads running
  {
    exists i :: 0 <= i < k && backs[i] && Short(worker, running[i])
  }

  /** There are running write-backs exactly if one is marked. */
  lemma {:induction false} BacksAt(running: seq<Request>, backs: seq<bool>)
    requires |running| == |backs|
    ensures Select(running, backs, true) != [] <==> FirstAt(backs, true) < |backs|
  {
    if running != [] {
      BacksAt(running[1..], backs[1..]);
    }
  }

  class Queue {
    const maxWritebacks: nat
    var allocatedRequests: nat
    var runningRequests: nat
    var runningWritebacks: nat
    var idle: seq<Request>
    var done: seq<Request>
    var running: seq<Request>           // the work queue, in the order of submission
    ghost var backs: seq<bool>          // which of them are write-backs
    ghost var caller: set<Request>      // requests the caller holds
    ghost var all: set<Request>         // all requests created
    ghost var submitted: seq<Request>   // every submission so far that is not a write-back
    ghost var returned: seq<Request>    // every request so far that was returned by waiting

    ghost function At(): Places
      reads this
    {
      Places(idle, caller, running, backs, done)
    }

    /** The counters equal the sizes they name, and there are not too many write-backs. */
    ghost predicate Counted()
      reads this
    {
      && |running| == |backs|
      && allocatedRequests == |caller| + |running| + |done|
      && runningRequests == |running|
      && runningWritebacks == |Backs(At())| <= maxWritebacks
    }

    /** The requests agree with their places. */
    ghost predicate Marked()
      reads this, all, running
    {
      && |running| == |backs|
      && (forall i :: 0 <= i < |running| ==> (running[i].op == WriteBack) == backs[i])
      && (forall r :: r in all ==> r.submitted == (r in running))
    }

    /** Requests are returned in the order in which they were submitted. */
    ghost predicate InOrder()
      reads this
    {
      |running| == |backs| && submitted == returned + Pending(At())
    }

    ghost predicate Valid()
      reads this, all, running
    {
      Partition(At(), all) && Counted() && Marked() && InOrder()
    }

    constructor (maxWritebacks: nat)
      ensures Valid() && this.maxWritebacks == maxWritebacks
      ensures all == {} && idle == running == done == submitted == returned == []
    {
      this.maxWritebacks := maxWritebacks;
      allocatedRequests, runningRequests, runningWritebacks := 0, 0, 0;
      idle, done, running := [], [], [];
      backs, caller, all, submitted, returned := [], {}, {}, [], [];
    }

    /** An unused request, a recycled one if there is one. */
    method Get() returns (r: Request)
      requires Valid()
      modifies this, all
      ensures Valid() && caller == old(caller) + {r} && r !in old(caller) && r in all
      ensures if old(idle) == [] then fresh(r) && all == old(all) + {r} && idle == []
              else r == old(idle)[0] && all == old(all) && idle == old(idle)[1..]
      ensures running == old(running) && done == old(done) && submitted == old(submitted) && returned == old(returned)
      ensures r.op == Free && r.len == 0 && r.status == -1 && !r.submitted
    {
      hide Partition, Backs, Pending, Counted, Marked, InOrder;
      if idle == [] {
        r := Create();
      } else {
        PlaceIdle(At(), all);
        r := Recycle();
      }
    }

    method Create() returns (r: Request)
      requires Valid() && idle == []
      modifies this
      ensures Valid() && caller == old(caller) + {r} && r !in old(caller) && r in all
      ensures fresh(r) && all == old(all) + {r} && idle == []
      ensures running == old(running) && done == old(done) && submitted == old(submitted) && returned == old(returned)
      ensures r.op == Free && r.len == 0 && r.status == -1 && !r.submitted
    {
      hide Partition, Select;
      r := new Request();
      PlaceNew(At(), all, r);
      all := all + {r};
      caller := caller + {r};
      allocatedRequests := allocatedRequests + 1;
    }

    method Recycle() returns (r: Request)
      requires Valid() && idle != []
      modifies this, idle[0]
      ensures Valid() && caller == old(caller) + {r} && r !in old(caller) && r in all
      ensures r == old(idle)[0] && all == old(all) && idle == old(idle)[1..]
      ensures running == old(running) && done == old(done) && submitted == old(submitted) && returned == old(returned)
      ensures r.op == Free && r.len == 0 && r.status == -1 && !r.submitted
    {
      hide Partition, Select;
      r := idle[0];
      PlaceIdle(At(), all);
      idle := idle[1..];
      caller := caller + {r};
      allocatedRequests := allocatedRequests + 1;
      r.op, r.len, r.status, r.submitted := Free, 0, -1, false;
    }

    /** Returns a request that the caller holds. */
    method Put(r: Request)
      requires Valid() && r in caller
      modifies this
      ensures Valid() && caller == old(caller) - {r} && idle == old(idle) + [r] && all == old(all)
      ensures running == old(running) && done == old(done) && submitted == old(submitted) && returned == old(returned)
    {
      hide Partition, Select;
      PlacePut(At(), all, r);
      idle := idle + [r];
      caller := caller - {r};
      allocatedRequests := allocatedRequests - 1;
    }

    /** The caller describes the operation. */
    method Describe(r: Request, op: Op, len: nat)
      requires Valid() && r in caller && op != Free
      modifies r
      ensures Valid() && r.op == op && r.len == len && !r.submitted
    {
      hide Partition, Select;
      PlacePut(At(), all, r);
      r.op, r.len := op, len;
    }

    /** Waits for the first running request, whose status the worker sets. Without running
        requests there is nothing to wait for. A write-back that is not complete ends the program. */
    method RawWait(worker: Worker) returns (progress: bool, o: Outcome)
      requires Valid()
      modifies this, running
      ensures progress <==> old(running) != []
      ensures !progress ==> o == Done && Valid() && At() == old(At()) && returned == old(returned)
      ensures o == Died <==> old(running) != [] && old(backs)[0] && old(Short(worker, running[0]))
      ensures o == Done ==> Valid() && all == old(all) && submitted == old(submitted) && returned == old(returned)
      ensures o == Done && progress ==>
                && At() == Finish(old(At())) && caller == old(caller)
                && running == old(running)[1..] && backs == old(backs)[1..]
      ensures o != Stuck
      ensures progress ==> old(running)[0].status == worker(old(running)[0])
      ensures forall r :: r in old(running) ==> r.len == old(r.len)
    {
      hide Partition, Select, Backs, Pending, Counted, InOrder;
      if running == [] {
        return false, Done;
      }
      PlaceFinish(At(), all);
      if running[0].op == WriteBack {
        o := FinishBack(worker);
      } else {
        FinishPlain(worker);
        o := Done;
      }
      progress := true;
    }

    method FinishPlain(worker: Worker)
      requires Valid() && running != [] && running[0].op != WriteBack && running[0] in all
      modifies this, running[0]
      ensures Valid() && all == old(all) && submitted == old(submitted) && returned == old(returned)
      ensures At() == Finish(old(At())) && !old(backs)[0]
      ensures var r := old(running)[0]; r.status == worker(r) && r.len == old(r.len) && r.op == old(r.op)
    {
      hide Partition, Select, Backs, Pending;
      PlaceFinish(At(), all);
      FinishOrder(At());
      ghost var p := At();
      var r := running[0];
      running, backs := running[1..], backs[1..];
      r.status := worker(r);
      r.submitted := false;
      runningRequests := runningRequests - 1;
      done := done + [r];
      assert At() == Finish(p);
    }

    /** A write-back must write everything. */
    method FinishBack(worker: Worker) returns (o: Outcome)
      requires Valid() && running != [] && running[0].op == WriteBack && running[0] in all
      modifies this, running[0]
      ensures o == Done ==> Valid() && all == old(all) && submitted == old(submitted) && returned == old(returned)
      ensures o == Done ==> At() == Finish(old(At()))
      ensures o != Stuck && old(backs)[0] && (o == Died <==> old(Short(worker, running[0])))
      ensures var r := old(running)[0]; r.status == worker(r) && r.len == old(r.len) && r.op == old(r.op)
    {
      hide Partition, Select, Backs, Pending;
      PlaceFinish(At(), all);
      FinishOrder(At());
      ghost var p := At();
      var r := running[0];
      running, backs := running[1..], backs[1..];
      r.status := worker(r);
      r.submitted := false;
      runningRequests := runningRequests - 1;
      if r.status < 0 {
        return Died;
      }
      if r.status != r.len {
        return Died;
      }
      runningWritebacks := runningWritebacks - 1;
      idle := idle + [r];
      allocatedRequests := allocatedRequests - 1;
      assert At() == Finish(p);
      return Done;
    }

    /** Waits until another write-back may run. Only for that requests are finished, up to the first
        write-back, which must be complete. With a limit of zero this cannot be. */
    method MakeRoom(worker: Worker) returns (o: Outcome, ghost k: nat)
      requires Valid()
      modifies this, running
      ensures o == Stuck <==> maxWritebacks == 0
      ensures old(runningWritebacks) < maxWritebacks ==> o == Done && k == 0
      ensures old(runningWritebacks) == maxWritebacks > 0 ==>
                && FirstAt(old(backs), true) < |old(running)| && k == FirstAt(old(backs), true) + 1
                && (o == Died <==> old(Short(worker, running[FirstAt(backs, true)])))
      ensures o == Done ==> Valid() && runningWritebacks < maxWritebacks
      ensures o == Done ==> k <= |old(running)| && At() == After(old(At()), k)
      ensures o == Done ==> all == old(all) && returned == old(returned) && submitted == old(submitted)
    {
      hide Partition, Select, Pending, Finish, After, Marked, InOrder;
      ghost var f := FirstAt(backs, true);
      BacksAt(running, backs);
      o, k := Done, 0;
      AfterNone(At());
      while runningWritebacks >= maxWritebacks
        invariant Valid() && o == Done
        invariant k <= |old(running)| == |old(backs)| && At() == After(old(At()), k)
        invariant running == old(running)[k..] && backs == old(backs)[k..]
        invariant all == old(all) && returned == old(returned) && submitted == old(submitted)
        invariant forall r :: r in old(running) ==> r.len == old(r.len)
        invariant old(runningWritebacks) < maxWritebacks ==> k == 0
        invariant forall i :: 0 <= i < k && old(backs)[i] ==> !old(Short(worker, running[i]))
        invariant old(runningWritebacks) == maxWritebacks > 0 ==>
                    k <= f + 1 && runningWritebacks == if k <= f then maxWritebacks else maxWritebacks - 1
        decreases |running|
      {
        BacksFirst(At());
        if running != [] {
          FinishOrder(At());
          assert running[0] == old(running)[k] && backs[0] == old(backs)[k];
        }
        var progress;
        progress, o := RawWait(worker);
        if o == Died {
          k := k + 1;
          return;
        }
        if !progress {
          return Stuck, k;
        }
        AfterOne(old(At()), k);
        k := k + 1;
      }
    }

    method Enqueue(r: Request)
      requires Valid() && r in caller && r.op != Free && (r.op == WriteBack ==> runningWritebacks < maxWritebacks)
      modifies this, r
      ensures Valid() && r.submitted && r.op == old(r.op) && all == old(all) && returned == old(returned)
      ensures submitted == old(submitted) + if r.op == WriteBack then [] else [r]
      ensures running == old(running) + [r] && backs == old(backs) + [r.op == WriteBack] && caller == old(caller) - {r}
      ensures idle == old(idle) && done == old(done)
    {
      hide Partition, Select, Backs, Pending;
      PlaceSubmit(At(), all, r, r.op == WriteBack);
      SubmitOrder(At(), r, r.op == WriteBack);
      assert returned + (Pending(At()) + [r]) == (returned + Pending(At())) + [r];
      if r.op == WriteBack {
        runningWritebacks := runningWritebacks + 1;
      } else {
        submitted := submitted + [r];
      }
      runningRequests := runningRequests + 1;
      r.submitted := true;
      running, backs, caller := running + [r], backs + [r.op == WriteBack], caller - {r};
    }

    /** Submits a request, a write-back only once there are not too many of them. If there are, the
        requests up to the first running write-back are finished, which must be complete. */
    method Submit(r: Request, worker: Worker) returns (o: Outcome, ghost k: nat)
      requires Valid() && r in caller && r.op != Free
      modifies this, running, r
      ensures o == Stuck <==> old(r.op) == WriteBack && maxWritebacks == 0
      ensures old(r.op) != WriteBack || old(runningWritebacks) < maxWritebacks ==> o == Done && k == 0
      ensures old(r.op) == WriteBack && old(runningWritebacks) == maxWritebacks > 0 ==>
                && FirstAt(old(backs), true) < |old(running)| && k == FirstAt(old(backs), true) + 1
                && (o == Died <==> old(Short(worker, running[FirstAt(backs, true)])))
      ensures o == Done ==>
                Valid() && all == old(all) && returned == old(returned) && r.submitted && k <= |old(running)|
      ensures o == Done ==> submitted == old(submitted) + if old(r.op) == WriteBack then [] else [r]
      ensures o == Done ==>
                var p := After(old(At()), k);
                At() == p.(running := p.running + [r], backs := p.backs + [old(r.op) == WriteBack],
                           caller := p.caller - {r})
    {
      hide Partition, Select, Backs, Pending, Finish, Marked, InOrder;
      PlacePut(At(), all, r);
      o, k := Done, 0;
      AfterNone(At());
      if r.op == WriteBack {
        o, k := MakeRoom(worker);
        if o != Done {
          return;
        }
      }
      Enqueue(r);
    }

    /** The first finished request in the order of submission, write-backs excepted; none if
        there is nothing to wait for. The write-backs before it must be complete. */
    method Wait(worker: Worker) returns (r: Request?, o: Outcome, ghost k: nat)
      requires Valid()
      modifies this, running
      ensures o != Stuck
      ensures old(done) != [] ==> o == Done && k == 0
      ensures |old(running)| == |old(backs)|
      ensures old(done) == [] ==> (o == Died <==> old(SomeShort(worker, running, backs, FirstAt(backs, false))))
      ensures o == Done && old(done) == [] && r != null ==> r.status == worker(r)
      ensures o == Done ==> Valid() && all == old(all) && submitted == old(submitted) && k <= |old(running)|
      ensures o == Done ==>
                var pending := Pending(old(At()));
                if pending == [] then r == null && At() == After(old(At()), |old(running)|) && returned == old(returned)
                else
                  && r == pending[0] && returned == old(returned) + [pending[0]] && Pending(At()) == pending[1..]
                  && caller == old(caller) + {pending[0]} && running == old(running)[k..]
    {
      hide Partition, Select, Backs, Finish, After, Marked, Counted, Pending, InOrder;
      r, o, k := null, Done, 0;
      SameLength();
      ghost var f := FirstAt(backs, false);
      AfterNone(At());
      while done == []
        invariant Valid() && o == Done && r == null
        invariant k <= |old(running)| == |old(backs)| && At() == After(old(At()), k)
        invariant running == old(running)[k..] && backs == old(backs)[k..]
        invariant all == old(all) && returned == old(returned) && submitted == old(submitted) && caller == old(caller)
        invariant Pending(At()) == Pending(old(At()))
        invariant forall x :: x in old(running) ==> x.len == old(x.len)
        invariant old(done) != [] ==> k == 0
        invariant old(done) == [] && done == [] ==> k <= f
        invariant old(done) == [] && done != [] ==> k == f + 1 && done == [old(running)[f]]
        invariant old(done) == [] && done != [] ==> done[0].status == worker(done[0])
        invariant forall i :: 0 <= i < k && i < f ==> !old(Short(worker, running[i]))
        decreases |running|
      {
        var progress;
        if running != [] {
          FinishOrder(At());
          FinishPlace(At());
          assert running[0] == old(running)[k] && backs[0] == old(backs)[k];
        }
        progress, o := RawWait(worker);
        if o == Died {
          return;
        }
        if !progress {
          PendingNone(At());
          return;
        }
        AfterOne(old(At()), k);
        k := k + 1;
      }
      r := TakeDone();
    }

    lemma SameLength()
      requires Valid()
      ensures |running| == |backs|
    {
    }

    lemma FinishPlace(p: Places)
      requires p.running != [] && |p.running| == |p.backs|
      ensures Finish(p).done == p.done + if p.backs[0] then [] else [p.running[0]]
    {
    }

    method TakeDone() returns (r: Request)
      requires Valid() && done != []
      modifies this
      ensures Valid() && r == old(done)[0] && caller == old(caller) + {r} && all == old(all)
              && submitted == old(submitted)
      ensures returned == old(returned) + [r] && Pending(old(At())) == [r] + Pending(At())
      ensures running == old(running) && backs == old(backs) && idle == old(idle)
    {
      hide Partition, Select;
      PlaceReturn(At(), all);
      ghost var p := At();
      r := done[0];
      assert done == [done[0]] + done[1..];
      ghost var rest := Select(running, backs, false);
      assert ([r] + done[1..]) + rest == [r] + (done[1..] + rest);
      assert returned + ([r] + (done[1..] + rest)) == (returned + [r]) + (done[1..] + rest);
      done := done[1..];
      caller := caller + {r};
      returned := returned + [r];
    }

    lemma PendingNone(p: Places)
      requires p.running == [] && p.backs == [] && p.done == []
      ensures Pending(p) == []
    {
    }

    /** Waits for all running requests, of which the write-backs must be complete. */
    method Sync(worker: Worker) returns (o: Outcome)
      requires Valid()
      modifies this, running
      ensures o != Stuck
      ensures |old(running)| == |old(backs)|
      ensures o == Died <==> old(SomeShort(worker, running, backs, |running|))
      ensures o == Done ==> Valid() && all == old(all) && submitted == old(submitted) && returned == old(returned)
      ensures o == Done ==> running == [] && At() == After(old(At()), |old(running)|)
    {
      hide Partition, Select, Backs, Finish, After, Marked, InOrder;
      o := Done;
      ghost var k := 0;
      AfterNone(At());
      while runningRequests > 0
        invariant Valid() && o == Done
        invariant k <= |old(running)| == |old(backs)| && At() == After(old(At()), k)
        invariant running == old(running)[k..] && backs == old(backs)[k..]
        invariant all == old(all) && returned == old(returned) && submitted == old(submitted)
        invariant forall x :: x in old(running) ==> x.len == old(x.len)
        invariant forall i :: 0 <= i < k && old(backs)[i] ==> !old(Short(worker, running[i]))
        decreases |running|
      {
        assert running[0] == old(running)[k] && backs[0] == old(backs)[k];
        var progress;
        progress, o := RawWait(worker);
        if o == Died {
          return;
        }
        if !progress {
          assert false;
        }
        AfterOne(old(At()), k);
        k := k + 1;
      }
    }

    /** Frees every request that was ever created, exactly once. */
    method Cleanup() returns (freed: seq<Request>)
      requires Valid() && runningRequests == 0 && runningWritebacks == 0 && allocatedRequests == 0 && done == []
      modifies this`idle
      ensures idle == [] && multiset(freed) == multiset(all)
    {
      hide Select, Backs, Pending;
      freed := [];
      while idle != []
        invariant multiset(freed) + multiset(idle) == multiset(all)
        decreases |idle|
      {
        FirstOf(idle);
        freed := freed + [idle[0]];
        idle := idle[1..];
      }
    }
  }

  /** On a queue with a limit of zero the assertion fails with the first write-back. */
  method WriteBackWithoutRoom(len: nat, worker: Worker) returns (o: Outcome)
    ensures o == Stuck
  {
    hide Partition, Select, Backs, Pending, Finish, After;
    var queue := new Queue(0);
    var r := queue.Get();
    queue.Describe(r, WriteBack, len);
    var outcome, _ := queue.Submit(r, worker);
    o := outcome;
  }
}
