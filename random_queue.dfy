/**
 * A work queue whose `get` removes an element at an arbitrary position,
 * with the put/`task_done`/`join` accounting of an asyncio queue.
 * Waiting is not modelled: an operation that would wait reports so instead.
 */
module RandomQueue {
  import opened Wrappers

  /** The outcome of `task_done`: fine, or the `ValueError` of one call too many. */
  datatype TaskDoneOutcome = Done | CalledTooManyTimes

  class AsyncRandomQueue<T> {
    var items: seq<T>
    /** The "items available" event. */
    var available: bool
    var unfinishedTasks: int

    /** Everything ever put, everything taken out by `get`, and the number of `task_done` calls. */
    ghost var everPut: multiset<T>
    ghost var taken: multiset<T>
    ghost var doneCalls: nat

    ghost predicate Valid()
      reads this
    {
      && (items != [] ==> available)
      && multiset(items) + taken == everPut
      && unfinishedTasks == |everPut| - doneCalls
    }

    constructor ()
      ensures Valid()
      ensures items == [] && unfinishedTasks == 0 && everPut == multiset{} && doneCalls == 0
    {
      items := [];
      available := false;
      unfinishedTasks := 0;
      everPut := multiset{};
      taken := multiset{};
      doneCalls := 0;
    }

    /** `put`: append, count one more unfinished task, signal availability. */
    method Put(x: T)
      requires Valid()
      modifies this
      ensures Valid()
      ensures items == old(items) + [x]
      ensures unfinishedTasks == old(unfinishedTasks) + 1
      ensures everPut == old(everPut) + multiset{x} && taken == old(taken) && doneCalls == old(doneCalls)
    {
      items := items + [x];
      unfinishedTasks := unfinishedTasks + 1;
      available := true;
      everPut := everPut + multiset{x};
    }

    /** `get`: remove and return the element at some position. `None` means the
        call would wait, which happens exactly when nothing is available. */
    method Get() returns (r: Option<T>)
      requires Valid()
      modifies this
      ensures Valid()
      ensures r.None? <==> old(items) == []
      ensures r.None? ==> items == old(items) && taken == old(taken) && !available
      ensures r.Some? ==> (available <==> items != [])
      ensures r.Some? ==> exists i :: 0 <= i < |old(items)| && old(items)[i] == r.value
                                     && items == old(items)[..i] + old(items)[i + 1..]
      ensures r.Some? ==> taken == old(taken) + multiset{r.value}
      ensures unfinishedTasks == old(unfinishedTasks) && everPut == old(everPut) && doneCalls == old(doneCalls)
    {
      if !available {
        return None;
      }
      if items == [] {
        available := false;
        return None;
      }
      var index :| 0 <= index < |items|;
      var item := items[index];
      assert items == items[..index] + [item] + items[index + 1..];
      items := items[..index] + items[index + 1..];
      taken := taken + multiset{item};
      if items == [] {
        available := false;
      }
      r := Some(item);
    }

    /** `qsize`: the items put and not yet taken. */
    function Qsize(): (n: nat)
      requires Valid()
      reads this
      ensures n == |everPut| - |taken|
    {
      |items|
    }

    /** `empty`: no items queued. */
    function Empty(): (b: bool)
      requires Valid()
      reads this
      ensures b <==> Qsize() == 0
    {
      |items| == 0
    }

    /** `task_done`: one task fewer; the call that takes the count below zero
        reports the error after the decrement. */
    method TaskDone() returns (outcome: TaskDoneOutcome)
      requires Valid()
      modifies this
      ensures Valid()
      ensures unfinishedTasks == old(unfinishedTasks) - 1 && doneCalls == old(doneCalls) + 1
      ensures outcome == CalledTooManyTimes <==> doneCalls > |everPut|
      ensures items == old(items) && everPut == old(everPut) && taken == old(taken)
    {
      unfinishedTasks := unfinishedTasks - 1;
      doneCalls := doneCalls + 1;
      if unfinishedTasks < 0 {
        outcome := CalledTooManyTimes;
      } else {
        outcome := Done;
      }
    }

    /** `join`: released exactly when no task is unfinished; otherwise it would wait. */
    method Join() returns (released: bool)
      requires Valid()
      ensures released <==> doneCalls >= |everPut|
    {
      released := unfinishedTasks <= 0;
    }
  }
}
