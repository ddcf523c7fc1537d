/**
 * A loop that handles its items in order and ends at the first uncaught
 * exception, keeping what it produced before.
 */
module Batch {
  import opened Wrappers
  import opened Strings

  /** What the loop produced, and the exception that ended it, if any. */
  datatype Outcome<P, E> = Outcome(done: seq<P>, abort: Option<E>)

  /** `f` applied to the items in order until it raises. */
  function RunAll<C, P, E>(items: seq<C>, f: C -> Result<P, E>): Outcome<P, E>
    decreases |items|
  {
    if items == [] then Outcome([], None)
    else
      var o := RunAll(items[..|items| - 1], f);
      if o.abort.Some? then o
      else
        match f(Last(items))
        case Failure(e) => Outcome(o.done, Some(e))
        case Success(p) => Outcome(o.done + [p], None)
  }

  /**
   * One result per item, in order, up to the first item that raises; the
   * loop ends without an exception exactly when every item was handled.
   */
  lemma {:induction false} RunAllPrefix<C, P, E>(items: seq<C>, f: C -> Result<P, E>)
    ensures var o := RunAll(items, f);
      && |o.done| <= |items|
      && (forall i :: 0 <= i < |o.done| ==> f(items[i]) == Success(o.done[i]))
      && (o.abort.None? <==> |o.done| == |items|)
      && (o.abort.Some? ==> f(items[|o.done|]) == Failure(o.abort.value))
    decreases |items|
  {
    if items != [] {
      var init := items[..|items| - 1];
      RunAllPrefix(init, f);
      assert forall i :: 0 <= i < |init| ==> init[i] == items[i];
    }
  }

  /** Once an item raises, later items change nothing. */
  lemma {:induction false} RunAllStopsAtAbort<C, P, E>(items: seq<C>, f: C -> Result<P, E>, k: nat)
    requires k <= |items| && RunAll(items[..k], f).abort.Some?
    ensures RunAll(items, f) == RunAll(items[..k], f)
    decreases |items| - k
  {
    if k < |items| {
      var init := items[..|items| - 1];
      assert init[..k] == items[..k];
      RunAllStopsAtAbort(init, f, k);
    } else {
      assert items[..k] == items;
    }
  }

  /** One more item: its row is appended, or its exception ends the whole run. */
  lemma RunAllNext<C, P, E>(items: seq<C>, f: C -> Result<P, E>, k: nat, done: seq<P>, r: Result<P, E>)
    requires k < |items| && RunAll(items[..k], f) == Outcome(done, None) && r == f(items[k])
    ensures r.Success? ==> RunAll(items[..k + 1], f) == Outcome(done + [r.value], None)
    ensures r.Failure? ==> RunAll(items, f) == Outcome(done, Some(r.error))
  {
    var next := items[..k + 1];
    assert next[..|next| - 1] == items[..k];
    assert Last(next) == items[k];
    if f(items[k]).Failure? {
      RunAllStopsAtAbort(items, f, k + 1);
    }
  }
}
